/**
  What each vault request does to the tables: same checks in the same order,
  same partial effects when a later check fails. Every handler is atomic.
 */
module VaultHandlers {
  import opened Sequences
  import opened Wrappers
  import opened VaultTables

  datatype Error =
    | NotFound | NotAccessible | InvalidFolder | OutOfDate | NoOrganizations | NoteTooLong | InvalidType
    | DataMissing | MoveFailed | NotAllMoved | InvalidPassword | ValidationErrors | KdfChanged | KeypairChanged
    | CiphersMissing | FoldersMissing | MissingId | NegativeSize | SizeOverflow | AttachmentsDisabled
    | LimitReached | LimitExceeded | InvalidBounds | SizeMismatch | NoFileName | NoKey | WrongCipher
    | SumOverflow | Malformed

  /** `SumOverflow`, `Malformed` and `MissingId` are panics: the request ends at that point, cleanup code included. */
  datatype Outcome = Done | Fail(error: Error)

  /**
    The clock, the configured note limit and the configured quota in KiB at
    the time of a request; and whether the database sums integers without
    bound. The one it runs on does not: SQLite refuses a sum beyond i64.
   */
  datatype Env = Env(now: Time, maxNote: nat, quotaKb: Option<int>, wideSums: bool)

  /**
    A cipher as a client sends it. `typeData` maps a type code (1 login, 2 note,
    3 card, 4 identity, 5 ssh key) to the object sent for it. A date is
    Some(None) when it was sent but does not parse.
   */
  datatype CipherData = CipherData(
    id: Option<Id>, folder: Option<Id>, organization: bool, atype: int, key: Option<string>, name: string,
    notes: Option<string>, fields: Option<string>, typeData: map<int, string>, objects: bool, favorite: Option<bool>,
    reprompt: Option<int>, passwordHistory: Option<string>, historyTextual: bool,
    lastKnown: Option<Option<Time>>, archived: Option<Option<Time>>)

  // ---------- create and update ----------

  function UpdateError(env: Env, t: Tables, u: UserId, current: Cipher, d: CipherData, checkStale: bool): Option<Error> {
    if checkStale && d.lastKnown.Some? && d.lastKnown.value.Some? && current.updatedAt - d.lastKnown.value.value >= 2000
    then Some(OutOfDate)
    else if d.organization then Some(NoOrganizations)
    else if d.notes.Some? && |d.notes.value| > env.maxNote then Some(NoteTooLong)
    else if d.folder.Some? && !OwnsFolder(t.folders, d.folder.value, u) then Some(InvalidFolder)
    else if !(1 <= d.atype <= 5) then Some(InvalidType)
    else if d.atype !in d.typeData then Some(DataMissing)
    else if !d.objects then Some(Malformed)
    else None
  }

  function PayloadOf(d: CipherData): Payload {
    Payload(d.key, d.name, d.notes, d.fields, if d.atype in d.typeData then d.typeData[d.atype] else "",
            d.passwordHistory, if d.reprompt == Some(0) || d.reprompt == Some(1) then d.reprompt else None)
  }

  /** The row an update stores: everything the client may change, but not the type. */
  function Updated(env: Env, u: UserId, current: Cipher, d: CipherData): Cipher {
    current.(owner := Some(u), payload := PayloadOf(d), updatedAt := env.now)
  }

  function Archived(t: Tables, c: Id, u: UserId, date: Option<Option<Time>>): Tables {
    match date
    case Some(Some(at)) => SetArchived(t, c, u, at)
    case _ => t
  }

  function UpdateFromData(env: Env, t: Tables, u: UserId, c: Id, current: Cipher, d: CipherData, checkStale: bool): (Tables, Outcome) {
    match UpdateError(env, t, u, current, d, checkStale)
    case Some(e) => (t, Fail(e))
    case None =>
      var saved := SaveCipher(t, c, Updated(env, u, current, d));
      var (moved, ok) := MoveToFolder(saved, c, d.folder, u);
      if !ok then (moved, Fail(MoveFailed))
      else (Archived(SetFavorite(moved, c, u, d.favorite), c, u, d.archived), Done)
  }

  lemma UpdateLeavesAttachments(env: Env, t: Tables, u: UserId, c: Id, current: Cipher, d: CipherData, checkStale: bool)
    ensures UpdateFromData(env, t, u, c, current, d, checkStale).0.attachments == t.attachments
  {
    hide MoveToFolder, UpdateError, Updated;
    MoveTouchesRows(SaveCipher(t, c, Updated(env, u, current, d)), c, d.folder, u);
  }

  function Fresh(t: Tables): Tables { t.(next := t.next + 1) }

  function NewCipher(env: Env, d: CipherData, owner: Option<UserId>): Cipher {
    Cipher(owner, d.atype, Payload(None, d.name, None, None, "", None, None), env.now, None)
  }

  function CreateCipher(env: Env, t: Tables, u: UserId, d: CipherData): (Tables, Outcome) {
    UpdateFromData(env, Fresh(t), u, t.next, NewCipher(env, d, None), d.(lastKnown := None), true)
  }

  function EditCipher(env: Env, t: Tables, u: UserId, c: Id, d: CipherData): (Tables, Outcome) {
    if c !in t.ciphers then (t, Fail(NotFound))
    else if !OwnsCipher(t, c, u) then (t, Fail(NotAccessible))
    else UpdateFromData(env, t, u, c, t.ciphers[c], d, true)
  }

  function ShareCipher(env: Env, t: Tables, u: UserId, c: Id, d: CipherData, collections: bool, checkStale: bool): (Tables, Outcome) {
    if c !in t.ciphers then (t, Fail(NotFound))
    else if !OwnsCipher(t, c, u) then (t, Fail(NotAccessible))
    else if d.organization || collections then (t, Fail(NoOrganizations))
    else UpdateFromData(env, t, u, c, t.ciphers[c], d, checkStale)
  }

  /** Saves an empty row first and deletes it again if filling it fails, though not if filling it panics. */
  function CreateShared(env: Env, t: Tables, u: UserId, d: CipherData, collections: bool): (Tables, Outcome) {
    var c := t.next;
    var started := SaveCipher(Fresh(t), c, NewCipher(env, d, Some(u)));
    var (t', o) := ShareCipher(env, started, u, c, d.(lastKnown := None), collections, true);
    if o.Done? || o == Fail(Malformed) then (t', o) else (DeleteCiphers(t', {c}), o)
  }

  function PartialUpdate(t: Tables, u: UserId, c: Id, folder: Option<Id>, favorite: bool): (Tables, Outcome) {
    if c !in t.ciphers then (t, Fail(NotFound))
    else if !OwnsCipher(t, c, u) then (t, Fail(NotAccessible))
    else if folder.Some? && !OwnsFolder(t.folders, folder.value, u) then (t, Fail(InvalidFolder))
    else
      var (moved, ok) := MoveToFolder(t, c, folder, u);
      if !ok then (moved, Fail(MoveFailed)) else (SetFavorite(moved, c, u, Some(favorite)), Done)
  }

  // ---------- attachments ----------

  const LEEWAY: int := 1024 * 1024

  /** Checked i64 arithmetic. */
  function Checked(x: int): Option<int> { if I64_MIN <= x <= I64_MAX then Some(x) else None }

  /** The sum of the stored sizes of a user's attachments, as an unbounded number. */
  function TotalSize(atts: seq<Attachment>, mine: set<Id>): int {
    if atts == [] then 0 else
    TotalSize(atts[..|atts| - 1], mine) + (if atts[|atts| - 1].cipher in mine then atts[|atts| - 1].size else 0)
  }

  function StoredSize(t: Tables, u: UserId): int { TotalSize(t.attachments, CiphersOf(t, u)) }

  /** The sum as the caller gets it: a sum that does not fit is refused by the database or, failing that, saturated. */
  function SizeByUser(env: Env, t: Tables, u: UserId): Option<int> {
    if I64_MIN <= StoredSize(t, u) <= I64_MAX then Some(StoredSize(t, u))
    else if env.wideSums then Some(I64_MAX)
    else None
  }

  function Left(limitKb: int, used: int, adjust: int): Option<int> {
    match Checked(limitKb * 1024)
    case None => None
    case Some(l) =>
      match Checked(l - used)
      case None => None
      case Some(m) => Checked(m + adjust)
  }

  function QuotaError(env: Env, t: Tables, u: UserId, adjust: int, size: nat): Option<Error> {
    match env.quotaKb
    case None => None
    case Some(limitKb) =>
      if limitKb == 0 then Some(AttachmentsDisabled) else
      match SizeByUser(env, t, u)
      case None => Some(SumOverflow)
      case Some(used) =>
        match Left(limitKb, used, adjust)
        case None => Some(SizeOverflow)
        case Some(left) => if left <= 0 then Some(LimitReached) else if size > left then Some(LimitExceeded) else None
  }

  function FindAttachment(atts: seq<Attachment>, id: Id): (r: Option<Attachment>)
    ensures r.Some? ==> r.value in atts && r.value.id == id
    ensures r.None? ==> forall a :: a in atts ==> a.id != id
  {
    if atts == [] then None
    else if atts[0].id == id then Some(atts[0])
    else
      assert atts == [atts[0]] + atts[1..];
      FindAttachment(atts[1..], id)
  }

  /** Announces an upload: the size is what the client claims, and no quota is checked. */
  function DeclareAttachment(t: Tables, u: UserId, c: Id, fileName: string, key: string, size: int): (Tables, Outcome) {
    if c !in t.ciphers then (t, Fail(NotFound))
    else if !OwnsCipher(t, c, u) then (t, Fail(NotAccessible))
    else if Checked(size).None? then (t, Fail(SizeOverflow))
    else if size < 0 then (t, Fail(NegativeSize))
    else (SaveAttachment(Fresh(t), Attachment(t.next, c, fileName, size, Some(key))), Done)
  }

  /** The second half of an announced upload: the actual size must be near the announced one. */
  function StoreAnnounced(t: Tables, a: Attachment, size: nat): (Tables, Outcome) {
    match (Checked(a.size + LEEWAY), Checked(a.size - LEEWAY))
    case (Some(max), Some(min)) =>
      if min <= size <= max then (if size != a.size then SaveAttachment(t, a.(size := size)) else t, Done)
      else (DeleteAttachment(t, a.id), Fail(SizeMismatch))
    case _ => (t, Fail(InvalidBounds))
  }

  function StoreLegacy(t: Tables, c: Id, fileName: Option<string>, key: Option<string>, size: nat): (Tables, Outcome) {
    if fileName.None? then (t, Fail(NoFileName))
    else if key.None? then (t, Fail(NoKey))
    else (SaveAttachment(Fresh(t), Attachment(t.next, c, fileName.value, size, key)), Done)
  }

  /** The common upload path; `announced` is the row an earlier announcement left, if any. */
  function StoreUpload(env: Env, t: Tables, u: UserId, announced: Option<Attachment>, c: Id,
                       fileName: Option<string>, key: Option<string>, size: nat): (Tables, Outcome) {
    if size > I64_MAX then (t, Fail(SizeOverflow))
    else if c !in t.ciphers then (t, Fail(NotFound))
    else if !OwnsCipher(t, c, u) then (t, Fail(NotAccessible))
    else
      match QuotaError(env, t, u, if announced.Some? then announced.value.size else 0, size)
      case Some(e) => (t, Fail(e))
      case None =>
        match announced
        case Some(a) => StoreAnnounced(t, a, size)
        case None => StoreLegacy(t, c, fileName, key, size)
  }

  function UploadAnnounced(env: Env, t: Tables, u: UserId, c: Id, id: Id, size: nat): (Tables, Outcome) {
    match FindAttachment(t.attachments, id)
    case None => (t, Fail(NotFound))
    case Some(a) =>
      if a.cipher != c then (t, Fail(WrongCipher))
      else StoreUpload(env, t, u, Some(a), c, None, None, size)
  }

  function DropAttachment(t: Tables, u: UserId, c: Id, id: Id): (Tables, Outcome) {
    match FindAttachment(t.attachments, id)
    case None => (t, Fail(NotFound))
    case Some(a) =>
      if a.cipher != c then (t, Fail(WrongCipher))
      else if c !in t.ciphers then (t, Fail(NotFound))
      else if !OwnsCipher(t, c, u) then (t, Fail(NotAccessible))
      else (DeleteAttachment(t, id), Done)
  }

  // ---------- one item at a time ----------

  datatype Action =
    | Create(data: CipherData)
    | CloneOrShareNew(data: CipherData, collections: bool)
    | Edit(cipher: Id, data: CipherData)
    | Share(cipher: Id, data: CipherData, collections: bool, quiet: bool)
    | Partial(cipher: Id, target: Option<Id>, favorite: bool)
    | SoftDelete(cipher: Id)
    | Restore(cipher: Id)
    | HardDelete(cipher: Id)
    | Archive(cipher: Id)
    | TakeOutOfArchive(cipher: Id)
    | NewFolder(name: string)
    | RenameFolder(folder: Id, name: string)
    | DropFolder(folder: Id)
    | Announce(cipher: Id, fileName: string, fileKey: string, claimed: int)
    | Upload(cipher: Id, attachment: Id, size: nat)
    | UploadLegacy(cipher: Id, formName: Option<string>, formKey: Option<string>, size: nat)
    | RemoveAttachment(cipher: Id, attachment: Id)

  /** Requests on an existing cipher that only its owner may make. */
  function OnOwnCipher(t: Tables, u: UserId, c: Id, t': Tables): (Tables, Outcome) {
    if c !in t.ciphers then (t, Fail(NotFound))
    else if !OwnsCipher(t, c, u) then (t, Fail(NotAccessible))
    else (t', Done)
  }

  function SetDeleted(env: Env, t: Tables, c: Id, at: Option<Time>): Tables {
    if c in t.ciphers then SaveCipher(t, c, t.ciphers[c].(deletedAt := at, updatedAt := env.now)) else t
  }

  function Perform(env: Env, t: Tables, u: UserId, a: Action): (Tables, Outcome) {
    match a
    case Create(d) => CreateCipher(env, t, u, d)
    case CloneOrShareNew(d, collections) => CreateShared(env, t, u, d, collections)
    case Edit(c, d) => EditCipher(env, t, u, c, d)
    case Share(c, d, collections, quiet) => ShareCipher(env, t, u, c, d, collections, !quiet)
    case Partial(c, f, fav) => PartialUpdate(t, u, c, f, fav)
    case SoftDelete(c) => OnOwnCipher(t, u, c, SetDeleted(env, t, c, Some(env.now)))
    case Restore(c) => OnOwnCipher(t, u, c, SetDeleted(env, t, c, None))
    case HardDelete(c) => OnOwnCipher(t, u, c, DeleteCiphers(t, {c}))
    case Archive(c) => OnOwnCipher(t, u, c, SetArchived(t, c, u, env.now))
    case TakeOutOfArchive(c) => OnOwnCipher(t, u, c, Unarchive(t, c, u))
    case NewFolder(name) => (SaveFolder(Fresh(t), t.next, Folder(u, name)), Done)
    case RenameFolder(f, name) =>
      if OwnsFolder(t.folders, f, u) then (SaveFolder(t, f, t.folders[f].(name := name)), Done) else (t, Fail(InvalidFolder))
    case DropFolder(f) =>
      if OwnsFolder(t.folders, f, u) then (DeleteFolders(t, {f}), Done) else (t, Fail(InvalidFolder))
    case Announce(c, fileName, key, size) => DeclareAttachment(t, u, c, fileName, key, size)
    case Upload(c, id, size) => UploadAnnounced(env, t, u, c, id, size)
    case UploadLegacy(c, name, key, size) => StoreUpload(env, t, u, None, c, name, key, size)
    case RemoveAttachment(c, id) => DropAttachment(t, u, c, id)
  }

  /** One item after the other, stopping at the first that fails; what was done stays done. */
  function PerformEach(env: Env, t: Tables, u: UserId, actions: seq<Action>): (Tables, Outcome) {
    if actions == [] then (t, Done) else
    var (t', o) := PerformEach(env, t, u, actions[..|actions| - 1]);
    if o.Done? then Perform(env, t', u, actions[|actions| - 1]) else (t', o)
  }

  // ---------- bulk move ----------

  /** The ciphers a bulk move touches: an empty selection means no filter at all. */
  function Selected(t: Tables, u: UserId, ids: seq<Id>): set<Id> {
    if ids == [] then CiphersOf(t, u) else set c | c in CiphersOf(t, u) && c in ids
  }

  /** `order` lists a set without repetition, in whatever order the database returns it. */
  ghost predicate Lists(order: seq<Id>, s: set<Id>) {
    (forall c :: c in order <==> c in s) && Distinct(order)
  }

  function MoveEach(t: Tables, u: UserId, order: seq<Id>, target: Option<Id>): (Tables, Outcome) {
    if order == [] then (t, Done) else
    var (t', o) := MoveEach(t, u, order[..|order| - 1], target);
    if o.Fail? then (t', o) else
    var (moved, ok) := MoveToFolder(t', order[|order| - 1], target, u);
    (moved, if ok then Done else Fail(MoveFailed))
  }

  function MoveSelected(t: Tables, u: UserId, ids: seq<Id>, target: Option<Id>, order: seq<Id>): (Tables, Outcome) {
    if target.Some? && !OwnsFolder(t.folders, target.value, u) then (t, Fail(InvalidFolder)) else
    var (t', o) := MoveEach(t, u, order, target);
    if o.Fail? then (t', o)
    else if |ids| != |order| then (t', Fail(NotAllMoved))
    else (t', Done)
  }

  // ---------- import ----------

  datatype FolderData = FolderData(id: Option<Id>, name: string)

  datatype Relation = Relation(cipher: nat, folder: nat)

  predicate Importable(env: Env, ds: seq<CipherData>) {
    forall i :: 0 <= i < |ds| ==> (ds[i].notes.Some? ==> |ds[i].notes.value| <= env.maxNote) && ds[i].historyTextual
  }

  /** Reuses a folder the user already had when the import began, creates any other. */
  function ImportFolders(t: Tables, u: UserId, had: set<Id>, fs: seq<FolderData>): (Tables, seq<Id>) {
    if fs == [] then (t, []) else
    var (t', ids) := ImportFolders(t, u, had, fs[..|fs| - 1]);
    var f := fs[|fs| - 1];
    if f.id.Some? && f.id.value in had then (t', ids + [f.id.value])
    else (SaveFolder(Fresh(t'), t'.next, Folder(u, f.name)), ids + [t'.next])
  }

  /** The map of relations: a later one for the same item replaces an earlier one. */
  function RelationMap(rs: seq<Relation>): map<nat, nat> {
    if rs == [] then map[] else RelationMap(rs[..|rs| - 1])[rs[|rs| - 1].cipher := rs[|rs| - 1].folder]
  }

  function FolderFor(relations: map<nat, nat>, folders: seq<Id>, i: nat): Option<Id> {
    if i in relations && relations[i] < |folders| then Some(folders[relations[i]]) else None
  }

  function ImportOne(env: Env, t: Tables, u: UserId, d: CipherData, folder: Option<Id>): (Tables, Outcome) {
    UpdateFromData(env, Fresh(t), u, t.next, NewCipher(env, d, None), d.(folder := folder), false)
  }

  function ImportCiphers(env: Env, t: Tables, u: UserId, ds: seq<CipherData>, relations: map<nat, nat>, folders: seq<Id>): (Tables, Outcome) {
    if ds == [] then (t, Done) else
    var i := |ds| - 1;
    var (t', o) := ImportCiphers(env, t, u, ds[..i], relations, folders);
    if o.Fail? then (t', o) else ImportOne(env, t', u, ds[i], FolderFor(relations, folders, i))
  }

  function Import(env: Env, t: Tables, u: UserId, ds: seq<CipherData>, fs: seq<FolderData>, rs: seq<Relation>): (Tables, Outcome) {
    if !Importable(env, ds) then (t, Fail(ValidationErrors)) else
    var (t', folders) := ImportFolders(t, u, FoldersOf(t, u), fs);
    ImportCiphers(env, t', u, ds, RelationMap(rs), folders)
  }

  // ---------- key rotation ----------

  /** The checks on the account itself are summed up in four flags. */
  datatype KeyData = KeyData(
    passwordOk: bool, kdfUnchanged: bool, keypairUnchanged: bool, noRecovery: bool,
    ciphers: seq<CipherData>, folders: seq<FolderData>)

  function ProvidedCiphers(k: KeyData): set<Id> {
    set i | 0 <= i < |k.ciphers| && !k.ciphers[i].organization && k.ciphers[i].id.Some? :: k.ciphers[i].id.value
  }

  function ProvidedFolders(k: KeyData): set<Id> {
    set i | 0 <= i < |k.folders| && k.folders[i].id.Some? :: k.folders[i].id.value
  }

  function KeyDataError(env: Env, t: Tables, u: UserId, k: KeyData): Option<Error> {
    if !k.passwordOk then Some(InvalidPassword)
    else if !Importable(env, k.ciphers) then Some(ValidationErrors)
    else if !k.kdfUnchanged then Some(KdfChanged)
    else if !k.keypairUnchanged then Some(KeypairChanged)
    else if !(ProvidedCiphers(k) >= CiphersOf(t, u)) then Some(CiphersMissing)
    else if !(ProvidedFolders(k) >= FoldersOf(t, u)) then Some(FoldersMissing)
    else if !k.noRecovery then Some(NoOrganizations)
    else None
  }

  /** Renames the user's folders one by one; entries without an id are skipped. */
  function RotateFolders(t: Tables, u: UserId, fs: seq<FolderData>): (Tables, Outcome) {
    if fs == [] then (t, Done) else
    var (t', o) := RotateFolders(t, u, fs[..|fs| - 1]);
    var f := fs[|fs| - 1];
    if o.Fail? || f.id.None? then (t', o)
    else if !OwnsFolder(t'.folders, f.id.value, u) then (t', Fail(InvalidFolder))
    else (SaveFolder(t', f.id.value, t'.folders[f.id.value].(name := f.name)), Done)
  }

  function RotateCiphers(env: Env, t: Tables, u: UserId, ds: seq<CipherData>): (Tables, Outcome) {
    if ds == [] then (t, Done) else
    var (t', o) := RotateCiphers(env, t, u, ds[..|ds| - 1]);
    var d := ds[|ds| - 1];
    if o.Fail? then (t', o)
    else if d.id.None? then (t', Fail(MissingId))
    else if !OwnsCipher(t', d.id.value, u) then (t', Fail(NotFound))
    else UpdateFromData(env, t', u, d.id.value, t'.ciphers[d.id.value], d, false)
  }

  function RotateKeys(env: Env, t: Tables, u: UserId, k: KeyData): (Tables, Outcome) {
    match KeyDataError(env, t, u, k)
    case Some(e) => (t, Fail(e))
    case None =>
      var (t', o) := RotateFolders(t, u, k.folders);
      if o.Fail? then (t', o) else RotateCiphers(env, t', u, k.ciphers)
  }

  // ---------- deleting many ----------

  function PurgeVault(t: Tables, u: UserId): Tables {
    var t' := DeleteCiphers(t, CiphersOf(t, u));
    DeleteFolders(t', FoldersOf(t', u))
  }

  function WithoutPerson(p: People, u: UserId): People {
    People(p.users - {u}, set d | d in p.devices && d.1 != u, set x | x in p.twoFactors && x.1 != u,
           set x | x in p.incomplete && x.0 != u,
           if u in p.users then p.invitations - {p.users[u]} else p.invitations)
  }

  function RemoveUser(t: Tables, u: UserId): (Tables, Outcome) {
    if u !in t.people.users then (t, Fail(NotFound)) else
    var t1 := DeleteCiphers(t, CiphersOf(t, u));
    var t2 := t1.(favorites := set x | x in t1.favorites && x.0 != u);
    var t3 := DeleteFolders(t2, FoldersOf(t2, u));
    (t3.(people := WithoutPerson(t3.people, u)), Done)
  }

  function Trashed(t: Tables, before: Time): set<Id> {
    set c | c in t.ciphers && t.ciphers[c].deletedAt.Some? && t.ciphers[c].deletedAt.value < before
  }

  // ---------- requests ----------

  datatype Request =
    | One(action: Action)
    | Each(actions: seq<Action>)
    | Move(ids: seq<Id>, target: Option<Id>, order: seq<Id>)
    | ImportVault(ciphers: seq<CipherData>, folders: seq<FolderData>, relations: seq<Relation>)
    | Rotate(keys: KeyData)
    | Purge(passwordOk: bool)
    | DeleteAccount(victim: UserId)
    | PurgeTrash(before: Time)

  /** The order in which a bulk move meets its ciphers is some listing of them. */
  ghost predicate Admissible(t: Tables, u: UserId, r: Request) {
    r.Move? ==> Lists(r.order, Selected(t, u, r.ids))
  }

  function Handle(env: Env, t: Tables, u: UserId, r: Request): (Tables, Outcome) {
    match r
    case One(a) => Perform(env, t, u, a)
    case Each(actions) => PerformEach(env, t, u, actions)
    case Move(ids, target, order) => MoveSelected(t, u, ids, target, order)
    case ImportVault(ds, fs, rs) => Import(env, t, u, ds, fs, rs)
    case Rotate(k) => RotateKeys(env, t, u, k)
    case Purge(passwordOk) => if passwordOk then (PurgeVault(t, u), Done) else (t, Fail(InvalidPassword))
    case DeleteAccount(victim) => RemoveUser(t, victim)
    case PurgeTrash(before) => (DeleteCiphers(t, Trashed(t, before)), Done)
  }
}
