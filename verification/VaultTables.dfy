/**
  The vault's database tables as values: ciphers, folders, the rows placing a
  cipher in a folder, favorites, archives and attachments, together with the
  account tables a user deletion touches. A table with a primary key is a map
  or a set; the two tables whose row order is observable are sequences.
 */
module VaultTables {
  import opened Sequences
  import opened Wrappers

  type UserId = string
  type Id = nat
  type Time = int

  const I64_MAX: int := 0x7fff_ffff_ffff_ffff
  const I64_MIN: int := -0x8000_0000_0000_0000

  /** The columns a client update overwrites. */
  datatype Payload = Payload(
    key: Option<string>, name: string, notes: Option<string>, fields: Option<string>,
    data: string, passwordHistory: Option<string>, reprompt: Option<int>)

  datatype Cipher = Cipher(owner: Option<UserId>, atype: int, payload: Payload, updatedAt: Time, deletedAt: Option<Time>)

  datatype Folder = Folder(owner: UserId, name: string)

  datatype Attachment = Attachment(id: Id, cipher: Id, fileName: string, size: int, akey: Option<string>)

  /** A row of folders_ciphers. */
  datatype Row = Row(cipher: Id, folder: Id)

  datatype People = People(
    users: map<UserId, string>, devices: set<(string, UserId)>, twoFactors: set<(string, UserId)>,
    incomplete: set<(UserId, string)>, invitations: set<string>)

  /** `next` is the next unused uuid: identifiers are drawn fresh and never reused. */
  datatype Tables = Tables(
    ciphers: map<Id, Cipher>, folders: map<Id, Folder>, placed: seq<Row>, favorites: set<(UserId, Id)>,
    archives: map<(UserId, Id), Time>, attachments: seq<Attachment>, people: People, next: Id)

  // ---------- row sequences ----------

  /** No two rows place the same cipher. */
  predicate OneFolderEach(rows: seq<Row>) {
    forall i, j :: 0 <= i < j < |rows| ==> rows[i].cipher != rows[j].cipher
  }

  predicate DistinctIds(atts: seq<Attachment>) {
    forall i, j :: 0 <= i < j < |atts| ==> atts[i].id != atts[j].id
  }

  lemma {:induction false} WithoutOneFolderEach(rows: seq<Row>, drop: set<Row>)
    requires OneFolderEach(rows)
    ensures OneFolderEach(Without(rows, drop))
  {
    if rows != [] {
      var n := |rows| - 1;
      WithoutOneFolderEach(rows[..n], drop);
      var rest := Without(rows[..n], drop);
      forall i | 0 <= i < |rest| ensures rest[i].cipher != rows[n].cipher {
        assert rest[i] in rest;
        assert rest[i] in rows[..n];
      }
    }
  }

  lemma {:induction false} WithoutDistinctIds(atts: seq<Attachment>, drop: set<Attachment>)
    requires DistinctIds(atts)
    ensures DistinctIds(Without(atts, drop))
  {
    if atts != [] {
      var n := |atts| - 1;
      WithoutDistinctIds(atts[..n], drop);
      var rest := Without(atts[..n], drop);
      forall i | 0 <= i < |rest| ensures rest[i].id != atts[n].id {
        assert rest[i] in rest;
        assert rest[i] in atts[..n];
      }
    }
  }

  // ---------- queries ----------

  predicate OwnsFolder(folders: map<Id, Folder>, f: Id, u: UserId) {
    f in folders && folders[f].owner == u
  }

  predicate OwnsCipher(t: Tables, c: Id, u: UserId) {
    c in t.ciphers && t.ciphers[c].owner == Some(u)
  }

  /** The direct lookup: the first row that puts the cipher into one of the user's folders. */
  function FirstFolder(rows: seq<Row>, folders: map<Id, Folder>, c: Id, u: UserId): Option<Id> {
    if rows == [] then None
    else if rows[0].cipher == c && OwnsFolder(folders, rows[0].folder, u) then Some(rows[0].folder)
    else FirstFolder(rows[1..], folders, c, u)
  }

  function GetFolder(t: Tables, c: Id, u: UserId): Option<Id> {
    FirstFolder(t.placed, t.folders, c, u)
  }

  function CiphersOf(t: Tables, u: UserId): set<Id> { set c | c in t.ciphers && t.ciphers[c].owner == Some(u) }

  function FoldersOf(t: Tables, u: UserId): set<Id> { set f | f in t.folders && t.folders[f].owner == u }

  lemma {:induction false} FirstFolderRow(rows: seq<Row>, folders: map<Id, Folder>, c: Id, u: UserId)
    ensures FirstFolder(rows, folders, c, u).Some? ==>
      var f := FirstFolder(rows, folders, c, u).value; Row(c, f) in rows && OwnsFolder(folders, f, u)
    ensures FirstFolder(rows, folders, c, u).None? ==>
      forall f :: Row(c, f) in rows ==> !OwnsFolder(folders, f, u)
  {
    if rows != [] {
      assert rows == [rows[0]] + rows[1..];
      FirstFolderRow(rows[1..], folders, c, u);
    }
  }

  // ---------- table operations ----------

  function SaveCipher(t: Tables, c: Id, row: Cipher): Tables { t.(ciphers := t.ciphers[c := row]) }

  function SaveFolder(t: Tables, f: Id, row: Folder): Tables { t.(folders := t.folders[f := row]) }

  /** replace_into by primary key: an existing row is deleted and inserted again. */
  function Place(t: Tables, c: Id, f: Id): Tables {
    t.(placed := Without(t.placed, {Row(c, f)}) + [Row(c, f)])
  }

  function Unplace(t: Tables, c: Id, f: Id): Tables { t.(placed := Without(t.placed, {Row(c, f)})) }

  function MoveToFolder(t: Tables, c: Id, target: Option<Id>, u: UserId): (Tables, bool) {
    match (GetFolder(t, c, u), target)
    case (None, None) => (t, true)
    case (None, Some(new_)) => (Place(t, c, new_), true)
    case (Some(old_), None) => if Row(c, old_) in t.placed then (Unplace(t, c, old_), true) else (t, false)
    case (Some(old_), Some(new_)) => if old_ == new_ then (t, true) else (Place(Unplace(t, c, old_), c, new_), true)
  }

  lemma MoveTouchesRows(t: Tables, c: Id, target: Option<Id>, u: UserId)
    ensures var t' := MoveToFolder(t, c, target, u).0; t' == t.(placed := t'.placed)
  {
    hide GetFolder, Without;
  }

  function SetFavorite(t: Tables, c: Id, u: UserId, status: Option<bool>): Tables {
    match status
    case None => t
    case Some(true) => t.(favorites := t.favorites + {(u, c)})
    case Some(false) => t.(favorites := t.favorites - {(u, c)})
  }

  function SetArchived(t: Tables, c: Id, u: UserId, at: Time): Tables { t.(archives := t.archives[(u, c) := at]) }

  function Unarchive(t: Tables, c: Id, u: UserId): Tables { t.(archives := t.archives - {(u, c)}) }

  function WithId(atts: seq<Attachment>, id: Id): set<Attachment> { set x | x in atts && x.id == id }

  function SaveAttachment(t: Tables, a: Attachment): Tables {
    t.(attachments := Without(t.attachments, WithId(t.attachments, a.id)) + [a])
  }

  function DeleteAttachment(t: Tables, id: Id): Tables {
    t.(attachments := Without(t.attachments, WithId(t.attachments, id)))
  }

  function RowsOfCiphers(rows: seq<Row>, cs: set<Id>): set<Row> { set r | r in rows && r.cipher in cs }

  function RowsOfFolders(rows: seq<Row>, fs: set<Id>): set<Row> { set r | r in rows && r.folder in fs }

  function AttachmentsOn(atts: seq<Attachment>, cs: set<Id>): set<Attachment> { set a | a in atts && a.cipher in cs }

  function FavoritesBeside(favs: set<(UserId, Id)>, cs: set<Id>): set<(UserId, Id)> { set x | x in favs && x.1 !in cs }

  /** Deletes ciphers with the placements, attachments and favorites that name them. */
  function DeleteCiphers(t: Tables, cs: set<Id>): Tables {
    t.(ciphers := t.ciphers - cs,
       placed := Without(t.placed, RowsOfCiphers(t.placed, cs)),
       attachments := Without(t.attachments, AttachmentsOn(t.attachments, cs)),
       favorites := FavoritesBeside(t.favorites, cs))
  }

  /** Deletes folders with the placements that name them. */
  function DeleteFolders(t: Tables, fs: set<Id>): Tables {
    t.(folders := t.folders - fs,
       placed := Without(t.placed, RowsOfFolders(t.placed, fs)))
  }

  // ---------- the invariant ----------

  ghost predicate RowsSound(t: Tables) {
    && OneFolderEach(t.placed)
    && forall r :: r in t.placed ==>
         r.cipher in t.ciphers && r.folder in t.folders && t.ciphers[r.cipher].owner == Some(t.folders[r.folder].owner)
  }

  ghost predicate FavoritesSound(t: Tables) {
    forall u, c :: (u, c) in t.favorites ==> OwnsCipher(t, c, u)
  }

  ghost predicate AttachmentsSound(t: Tables) {
    && DistinctIds(t.attachments)
    && forall a :: a in t.attachments ==> a.cipher in t.ciphers && a.id < t.next && 0 <= a.size <= I64_MAX
  }

  ghost predicate IdsSound(t: Tables) {
    && (forall c :: c in t.ciphers ==> c < t.next && t.ciphers[c].owner.Some?)
    && (forall f :: f in t.folders ==> f < t.next)
  }

  ghost predicate Inv(t: Tables) {
    RowsSound(t) && FavoritesSound(t) && AttachmentsSound(t) && IdsSound(t)
  }

  /** What no step may do: reuse an identifier, or hand a cipher or folder to somebody else. */
  ghost predicate Evolves(t: Tables, t': Tables) {
    && t.next <= t'.next
    && (forall c :: c in t'.ciphers && c < t.next ==> c in t.ciphers && t'.ciphers[c].owner == t.ciphers[c].owner)
    && (forall f :: f in t'.folders && f < t.next ==> f in t.folders && t'.folders[f].owner == t.folders[f].owner)
  }

  lemma EvolvesTransitive(a: Tables, b: Tables, c: Tables)
    requires Evolves(a, b) && Evolves(b, c)
    ensures Evolves(a, c)
  {
  }

  // ---------- every table operation keeps it ----------

  /** Under the invariant the first folder found is the only one. */
  lemma OnlyFolder(t: Tables, c: Id, u: UserId, f: Id)
    requires RowsSound(t) && Row(c, f) in t.placed
    ensures GetFolder(t, c, u) == if OwnsFolder(t.folders, f, u) then Some(f) else None
  {
    FirstFolderRow(t.placed, t.folders, c, u);
    if GetFolder(t, c, u).Some? {
      var g := GetFolder(t, c, u).value;
      assert Row(c, g) in t.placed;
      var i :| 0 <= i < |t.placed| && t.placed[i] == Row(c, g);
      var j :| 0 <= j < |t.placed| && t.placed[j] == Row(c, f);
      assert i == j;
    }
  }

  lemma UnplacedHasNoRow(t: Tables, c: Id, u: UserId)
    requires RowsSound(t) && OwnsCipher(t, c, u) && GetFolder(t, c, u).None?
    ensures forall r :: r in t.placed ==> r.cipher != c
  {
    FirstFolderRow(t.placed, t.folders, c, u);
    forall r | r in t.placed ensures r.cipher != c {
      if r.cipher == c {
        assert r == Row(c, r.folder);
        assert OwnsFolder(t.folders, r.folder, u);
      }
    }
  }

  lemma UniqueId(t: Tables, a: Attachment)
    requires Inv(t) && a in t.attachments
    ensures forall x :: x in t.attachments && x.id == a.id ==> x == a
  {
    forall x | x in t.attachments && x.id == a.id ensures x == a {
      var i :| 0 <= i < |t.attachments| && t.attachments[i] == x;
      var j :| 0 <= j < |t.attachments| && t.attachments[j] == a;
      assert i == j;
    }
  }

  lemma PlaceKeeps(t: Tables, c: Id, f: Id, u: UserId)
    requires Inv(t) && OwnsCipher(t, c, u) && OwnsFolder(t.folders, f, u)
    requires forall r :: r in t.placed ==> r.cipher != c
    ensures Inv(Place(t, c, f)) && Evolves(t, Place(t, c, f))
    ensures GetFolder(Place(t, c, f), c, u) == Some(f)
  {
    WithoutNone(t.placed, {Row(c, f)});
    var t' := Place(t, c, f);
    assert t'.placed == t.placed + [Row(c, f)];
    assert OneFolderEach(t'.placed);
    assert RowsSound(t');
    assert t'.placed[|t.placed|] == Row(c, f);
    OnlyFolder(t', c, u, f);
  }

  lemma UnplaceKeeps(t: Tables, c: Id, f: Id, u: UserId)
    requires Inv(t) && OwnsCipher(t, c, u) && Row(c, f) in t.placed
    ensures Inv(Unplace(t, c, f)) && Evolves(t, Unplace(t, c, f))
    ensures forall r :: r in Unplace(t, c, f).placed <==> r in t.placed && r.cipher != c
    ensures GetFolder(Unplace(t, c, f), c, u) == None
  {
    var t' := Unplace(t, c, f);
    WithoutOneFolderEach(t.placed, {Row(c, f)});
    forall r | r in t.placed && r.cipher == c ensures r == Row(c, f) {
      var i :| 0 <= i < |t.placed| && t.placed[i] == r;
      var j :| 0 <= j < |t.placed| && t.placed[j] == Row(c, f);
      assert i == j;
    }
    FirstFolderRow(t'.placed, t'.folders, c, u);
  }

  /** Moving a cipher among its owner's folders succeeds, lands where asked and disturbs no other cipher. */
  lemma MoveKeeps(t: Tables, c: Id, target: Option<Id>, u: UserId)
    requires Inv(t) && OwnsCipher(t, c, u)
    requires target.Some? ==> OwnsFolder(t.folders, target.value, u)
    ensures var (t', ok) := MoveToFolder(t, c, target, u);
      && ok && Inv(t') && Evolves(t, t')
      && GetFolder(t', c, u) == target
      && t' == t.(placed := t'.placed)
      && (forall r: Row :: r.cipher != c ==> (r in t'.placed <==> r in t.placed))
  {
    FirstFolderRow(t.placed, t.folders, c, u);
    match (GetFolder(t, c, u), target)
    case (None, None) =>
    case (None, Some(new_)) =>
      UnplacedHasNoRow(t, c, u);
      PlaceKeeps(t, c, new_, u);
    case (Some(old_), None) =>
      UnplaceKeeps(t, c, old_, u);
    case (Some(old_), Some(new_)) =>
      if old_ != new_ {
        UnplaceKeeps(t, c, old_, u);
        PlaceKeeps(Unplace(t, c, old_), c, new_, u);
      }
  }

  lemma FavoriteKeeps(t: Tables, c: Id, u: UserId, status: Option<bool>)
    requires Inv(t) && OwnsCipher(t, c, u)
    ensures Inv(SetFavorite(t, c, u, status)) && Evolves(t, SetFavorite(t, c, u, status))
  {
  }

  /** Overwriting a row of the same owner, or inserting one under a fresh identifier. */
  lemma SaveCipherKeeps(t: Tables, c: Id, row: Cipher)
    requires Inv(t) && row.owner.Some? && c < t.next
    requires c in t.ciphers ==> t.ciphers[c].owner == row.owner
    ensures Inv(SaveCipher(t, c, row))
    ensures c in t.ciphers ==> Evolves(t, SaveCipher(t, c, row))
  {
  }

  lemma SaveFolderKeeps(t: Tables, f: Id, row: Folder)
    requires Inv(t) && f < t.next
    requires f in t.folders ==> t.folders[f].owner == row.owner
    ensures Inv(SaveFolder(t, f, row))
    ensures f in t.folders ==> Evolves(t, SaveFolder(t, f, row))
  {
  }

  lemma SaveAttachmentKeeps(t: Tables, a: Attachment)
    requires Inv(t) && a.cipher in t.ciphers && a.id < t.next && 0 <= a.size <= I64_MAX
    ensures Inv(SaveAttachment(t, a)) && Evolves(t, SaveAttachment(t, a))
  {
    var drop := WithId(t.attachments, a.id);
    WithoutDistinctIds(t.attachments, drop);
    var rest := Without(t.attachments, drop);
    forall i | 0 <= i < |rest| ensures rest[i].id != a.id {
      assert rest[i] in rest;
    }
  }

  lemma DeleteAttachmentKeeps(t: Tables, id: Id)
    requires Inv(t)
    ensures Inv(DeleteAttachment(t, id)) && Evolves(t, DeleteAttachment(t, id))
  {
    WithoutDistinctIds(t.attachments, WithId(t.attachments, id));
  }

  lemma DeleteCiphersKeeps(t: Tables, cs: set<Id>)
    requires Inv(t)
    ensures Inv(DeleteCiphers(t, cs)) && Evolves(t, DeleteCiphers(t, cs))
  {
    WithoutOneFolderEach(t.placed, RowsOfCiphers(t.placed, cs));
    WithoutDistinctIds(t.attachments, AttachmentsOn(t.attachments, cs));
  }

  lemma DeleteFoldersKeeps(t: Tables, fs: set<Id>)
    requires Inv(t)
    ensures Inv(DeleteFolders(t, fs)) && Evolves(t, DeleteFolders(t, fs))
  {
    WithoutOneFolderEach(t.placed, RowsOfFolders(t.placed, fs));
  }

  // ---------- deleting one after the other is deleting at once ----------

  lemma RowsOfCiphersStep(rows: seq<Row>, cs: set<Id>, c: Id)
    ensures var left := Without(rows, RowsOfCiphers(rows, cs));
      Without(left, RowsOfCiphers(left, {c})) == Without(rows, RowsOfCiphers(rows, cs + {c}))
  {
    var left := Without(rows, RowsOfCiphers(rows, cs));
    WithoutTwice(rows, RowsOfCiphers(rows, cs), RowsOfCiphers(left, {c}));
    WithoutSame(rows, RowsOfCiphers(rows, cs) + RowsOfCiphers(left, {c}), RowsOfCiphers(rows, cs + {c}));
  }

  lemma AttachmentsOnStep(atts: seq<Attachment>, cs: set<Id>, c: Id)
    ensures var left := Without(atts, AttachmentsOn(atts, cs));
      Without(left, AttachmentsOn(left, {c})) == Without(atts, AttachmentsOn(atts, cs + {c}))
  {
    var left := Without(atts, AttachmentsOn(atts, cs));
    WithoutTwice(atts, AttachmentsOn(atts, cs), AttachmentsOn(left, {c}));
    WithoutSame(atts, AttachmentsOn(atts, cs) + AttachmentsOn(left, {c}), AttachmentsOn(atts, cs + {c}));
  }

  lemma RowsOfFoldersStep(rows: seq<Row>, fs: set<Id>, f: Id)
    ensures var left := Without(rows, RowsOfFolders(rows, fs));
      Without(left, RowsOfFolders(left, {f})) == Without(rows, RowsOfFolders(rows, fs + {f}))
  {
    var left := Without(rows, RowsOfFolders(rows, fs));
    WithoutTwice(rows, RowsOfFolders(rows, fs), RowsOfFolders(left, {f}));
    WithoutSame(rows, RowsOfFolders(rows, fs) + RowsOfFolders(left, {f}), RowsOfFolders(rows, fs + {f}));
  }

  lemma DeleteCiphersStep(t: Tables, cs: set<Id>, c: Id)
    ensures DeleteCiphers(DeleteCiphers(t, cs), {c}) == DeleteCiphers(t, cs + {c})
  {
    RowsOfCiphersStep(t.placed, cs, c);
    AttachmentsOnStep(t.attachments, cs, c);
    assert t.ciphers - cs - {c} == t.ciphers - (cs + {c});
    assert FavoritesBeside(FavoritesBeside(t.favorites, cs), {c}) == FavoritesBeside(t.favorites, cs + {c});
  }

  lemma DeleteFoldersStep(t: Tables, fs: set<Id>, f: Id)
    ensures DeleteFolders(DeleteFolders(t, fs), {f}) == DeleteFolders(t, fs + {f})
  {
    RowsOfFoldersStep(t.placed, fs, f);
    assert t.folders - fs - {f} == t.folders - (fs + {f});
  }

  lemma DeleteNoCiphers(t: Tables)
    ensures DeleteCiphers(t, {}) == t
  {
    WithoutNone(t.placed, RowsOfCiphers(t.placed, {}));
    WithoutNone(t.attachments, AttachmentsOn(t.attachments, {}));
    assert t.ciphers - {} == t.ciphers;
    assert FavoritesBeside(t.favorites, {}) == t.favorites;
  }

  lemma DeleteNoFolders(t: Tables)
    ensures DeleteFolders(t, {}) == t
  {
    WithoutNone(t.placed, RowsOfFolders(t.placed, {}));
    assert t.folders - {} == t.folders;
  }
}
