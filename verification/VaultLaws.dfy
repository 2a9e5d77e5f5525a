/**
  What every run of vault requests keeps: each cipher in at most one folder and
  that folder its owner's, no dangling row, no reused identifier, no change of
  owner.
 */
module VaultLaws {
  import opened Sequences
  import opened Wrappers
  import opened VaultTables
  import opened VaultHandlers

  // ---------- create and update ----------

  lemma FreshKeeps(t: Tables)
    requires Inv(t)
    ensures Inv(Fresh(t)) && Evolves(t, Fresh(t))
  {
  }

  /** A stored row, column by column: what the request sent, and what it may not change. */
  ghost predicate Holds(row: Cipher, now: Time, u: UserId, atype: int, deletedAt: Option<Time>, d: CipherData) {
    && row.owner == Some(u) && row.atype == atype && row.deletedAt == deletedAt && row.updatedAt == now
    && row.payload.key == d.key && row.payload.name == d.name && row.payload.notes == d.notes
    && row.payload.fields == d.fields && row.payload.passwordHistory == d.passwordHistory
    && d.atype in d.typeData && row.payload.data == d.typeData[d.atype]
    && row.payload.reprompt == (if d.reprompt in {Some(0), Some(1)} then d.reprompt else None)
  }

  lemma UpdatedHolds(env: Env, u: UserId, current: Cipher, d: CipherData)
    requires d.atype in d.typeData
    ensures Holds(Updated(env, u, current, d), env.now, u, current.atype, current.deletedAt, d)
  {
  }

  /** Everything a successful update determines, for an existing cipher or a fresh one. */
  ghost predicate Stored(env: Env, t: Tables, t': Tables, u: UserId, c: Id, atype: int, deletedAt: Option<Time>, d: CipherData) {
    && c in t'.ciphers && Holds(t'.ciphers[c], env.now, u, atype, deletedAt, d)
    && t'.ciphers == t.ciphers[c := t'.ciphers[c]]
    && t'.folders == t.folders && t'.next == t.next && t'.attachments == t.attachments && t'.people == t.people
    && GetFolder(t', c, u) == d.folder
    && (forall r: Row :: r.cipher != c ==> (r in t'.placed <==> r in t.placed))
    && (d.favorite.Some? ==> ((u, c) in t'.favorites <==> d.favorite.value))
    && (d.favorite.None? ==> ((u, c) in t'.favorites <==> (u, c) in t.favorites))
    && (forall x :: x != (u, c) ==> (x in t'.favorites <==> x in t.favorites))
    && t'.archives == (if d.archived.Some? && d.archived.value.Some? then t.archives[(u, c) := d.archived.value.value] else t.archives)
  }

  /** The last steps of an update touch favorites and archives only. */
  lemma FinishKeeps(t: Tables, c: Id, u: UserId, d: CipherData)
    requires Inv(t) && OwnsCipher(t, c, u)
    ensures var t' := Archived(SetFavorite(t, c, u, d.favorite), c, u, d.archived);
      && Inv(t') && t' == t.(favorites := t'.favorites, archives := t'.archives)
      && GetFolder(t', c, u) == GetFolder(t, c, u)
      && (d.favorite.Some? ==> ((u, c) in t'.favorites <==> d.favorite.value))
      && (d.favorite.None? ==> ((u, c) in t'.favorites <==> (u, c) in t.favorites))
      && (forall x :: x != (u, c) ==> (x in t'.favorites <==> x in t.favorites))
      && t'.archives == (if d.archived.Some? && d.archived.value.Some? then t.archives[(u, c) := d.archived.value.value] else t.archives)
  {
    FavoriteKeeps(t, c, u, d.favorite);
    var starred := SetFavorite(t, c, u, d.favorite);
    ArchivesAreFree(starred, Archived(starred, c, u, d.archived).archives);
  }

  lemma StoreKeeps(env: Env, t: Tables, u: UserId, c: Id, current: Cipher, d: CipherData)
    requires Inv(t) && c < t.next
    requires c in t.ciphers ==> t.ciphers[c] == current && current.owner == Some(u)
    requires d.atype in d.typeData && (d.folder.Some? ==> OwnsFolder(t.folders, d.folder.value, u))
    ensures var saved := SaveCipher(t, c, Updated(env, u, current, d));
      var (moved, ok) := MoveToFolder(saved, c, d.folder, u);
      var t' := Archived(SetFavorite(moved, c, u, d.favorite), c, u, d.archived);
      ok && Inv(t') && Stored(env, t, t', u, c, current.atype, current.deletedAt, d)
  {
    UpdatedHolds(env, u, current, d);
    hide Inv, Evolves, MoveToFolder, GetFolder, SetFavorite, Archived, Holds, Updated;
    var saved := SaveCipher(t, c, Updated(env, u, current, d));
    SaveCipherKeeps(t, c, Updated(env, u, current, d));
    MoveKeeps(saved, c, d.folder, u);
    var moved := MoveToFolder(saved, c, d.folder, u).0;
    FinishKeeps(moved, c, u, d);
  }

  lemma UpdateKeeps(env: Env, t: Tables, u: UserId, c: Id, current: Cipher, d: CipherData, checkStale: bool)
    requires Inv(t) && c < t.next
    requires c in t.ciphers ==> t.ciphers[c] == current && current.owner == Some(u)
    ensures var (t', o) := UpdateFromData(env, t, u, c, current, d, checkStale);
      && (o.Fail? ==> t' == t && UpdateError(env, t, u, current, d, checkStale) == Some(o.error))
      && (o.Done? ==> UpdateError(env, t, u, current, d, checkStale).None? && Inv(t') && Stored(env, t, t', u, c, current.atype, current.deletedAt, d))
  {
    hide Inv, Stored, MoveToFolder, SetFavorite, Archived, SaveCipher;
    if UpdateError(env, t, u, current, d, checkStale).None? {
      StoreKeeps(env, t, u, c, current, d);
    }
  }

  lemma EditKeeps(env: Env, t: Tables, u: UserId, c: Id, d: CipherData, checkStale: bool)
    requires Inv(t) && OwnsCipher(t, c, u)
    ensures var t' := UpdateFromData(env, t, u, c, t.ciphers[c], d, checkStale).0; Inv(t') && Evolves(t, t')
  {
    UpdateKeeps(env, t, u, c, t.ciphers[c], d, checkStale);
  }

  lemma CreateKeeps(env: Env, t: Tables, u: UserId, d: CipherData, checkStale: bool)
    requires Inv(t)
    ensures var t' := UpdateFromData(env, Fresh(t), u, t.next, NewCipher(env, d, None), d, checkStale).0; Inv(t') && Evolves(t, t')
  {
    FreshKeeps(t);
    UpdateKeeps(env, Fresh(t), u, t.next, NewCipher(env, d, None), d, checkStale);
  }

  lemma CreateSharedKeeps(env: Env, t: Tables, u: UserId, d: CipherData, collections: bool)
    requires Inv(t)
    ensures var t' := CreateShared(env, t, u, d, collections).0; Inv(t') && Evolves(t, t')
  {
    var started := SaveCipher(Fresh(t), t.next, NewCipher(env, d, Some(u)));
    FreshKeeps(t);
    SaveCipherKeeps(Fresh(t), t.next, NewCipher(env, d, Some(u)));
    assert Evolves(t, started);
    EditKeeps(env, started, u, t.next, d.(lastKnown := None), true);
    var (t', o) := ShareCipher(env, started, u, t.next, d.(lastKnown := None), collections, true);
    assert Inv(t') && Evolves(started, t');
    EvolvesTransitive(t, started, t');
    DeleteCiphersKeeps(t', {t.next});
    EvolvesTransitive(t, t', DeleteCiphers(t', {t.next}));
  }

  ghost predicate PartlyUpdated(t: Tables, t': Tables, u: UserId, c: Id, folder: Option<Id>, favorite: bool) {
    && GetFolder(t', c, u) == folder && ((u, c) in t'.favorites <==> favorite)
    && t' == t.(placed := t'.placed, favorites := t'.favorites)
    && (forall r: Row :: r.cipher != c ==> (r in t'.placed <==> r in t.placed))
    && (forall x :: x != (u, c) ==> (x in t'.favorites <==> x in t.favorites))
  }

  /** A partial update succeeds exactly for an own cipher and an own folder or none, sets both, and otherwise does nothing. */
  lemma PartialKeeps(env: Env, t: Tables, u: UserId, c: Id, folder: Option<Id>, favorite: bool)
    requires Inv(t)
    ensures var (t', o) := Perform(env, t, u, Partial(c, folder, favorite));
      && Inv(t') && Evolves(t, t')
      && (o.Done? <==> OwnsCipher(t, c, u) && (folder.Some? ==> OwnsFolder(t.folders, folder.value, u)))
      && (o.Fail? ==> t' == t)
      && (o.Done? ==> PartlyUpdated(t, t', u, c, folder, favorite))
  {
    hide MoveToFolder, GetFolder;
    EvolvesReflexive(t);
    if OwnsCipher(t, c, u) && (folder.Some? ==> OwnsFolder(t.folders, folder.value, u)) {
      MoveKeeps(t, c, folder, u);
      var moved := MoveToFolder(t, c, folder, u).0;
      FavoriteKeeps(moved, c, u, Some(favorite));
      FolderUnaffected(moved, c, u, Some(favorite));
    }
  }

  lemma FolderUnaffected(t: Tables, c: Id, u: UserId, status: Option<bool>)
    ensures GetFolder(SetFavorite(t, c, u, status), c, u) == GetFolder(t, c, u)
  {
  }

  /** What the checks on a single item demand, the folder aside. */
  predicate ItemAccepted(env: Env, d: CipherData) {
    && !d.organization && (d.notes.Some? ==> |d.notes.value| <= env.maxNote)
    && 1 <= d.atype <= 5 && d.atype in d.typeData && d.objects
  }

  predicate Acceptable(env: Env, t: Tables, u: UserId, d: CipherData) {
    ItemAccepted(env, d) && (d.folder.Some? ==> OwnsFolder(t.folders, d.folder.value, u))
  }

  /** The client's copy is at least two seconds older than the row. */
  predicate Stale(row: Cipher, d: CipherData) {
    d.lastKnown.Some? && d.lastKnown.value.Some? && row.updatedAt >= d.lastKnown.value.value + 2000
  }

  /** An edit succeeds exactly on an own, current copy with acceptable data; it stores all of it, or does nothing. */
  lemma EditExact(env: Env, t: Tables, u: UserId, c: Id, d: CipherData)
    requires Inv(t)
    ensures var (t', o) := Perform(env, t, u, Edit(c, d));
      && (o.Done? <==> OwnsCipher(t, c, u) && !Stale(t.ciphers[c], d) && Acceptable(env, t, u, d))
      && (o.Done? ==> Inv(t') && Stored(env, t, t', u, c, t.ciphers[c].atype, t.ciphers[c].deletedAt, d))
      && (o.Fail? ==> t' == t)
  {
    hide Stored;
    if OwnsCipher(t, c, u) {
      UpdateKeeps(env, t, u, c, t.ciphers[c], d, true);
    }
  }

  /** Creation succeeds exactly with acceptable data, under a fresh identifier; a failure uses the identifier up and nothing else. */
  lemma CreateExact(env: Env, t: Tables, u: UserId, d: CipherData)
    requires Inv(t)
    ensures var (t', o) := Perform(env, t, u, Create(d));
      && (o.Done? <==> Acceptable(env, t, u, d))
      && (o.Done? ==> t.next !in t.ciphers && Inv(t') && Stored(env, Fresh(t), t', u, t.next, d.atype, None, d))
      && (o.Fail? ==> t' == Fresh(t))
  {
    FreshKeeps(t);
    hide Stored, GetFolder;
    UpdateKeeps(env, Fresh(t), u, t.next, NewCipher(env, d, None), d.(lastKnown := None), true);
    SameStored(env, Fresh(t), Perform(env, t, u, Create(d)).0, u, t.next, d.atype, None, d);
  }

  lemma SameStored(env: Env, t: Tables, t': Tables, u: UserId, c: Id, atype: int, deletedAt: Option<Time>, d: CipherData)
    ensures Stored(env, t, t', u, c, atype, deletedAt, d.(lastKnown := None)) <==> Stored(env, t, t', u, c, atype, deletedAt, d)
  {
  }

  /** All checks pass but the one on the shape of the data, which panics. */
  predicate FillingPanics(env: Env, t: Tables, u: UserId, d: CipherData, collections: bool) {
    !collections && !d.objects && Acceptable(env, t, u, d.(objects := true))
  }

  /** A row with nothing but an owner, a type and a name. */
  function BareRow(now: Time, u: UserId, atype: int, name: string): Cipher {
    Cipher(Some(u), atype, Payload(None, name, None, None, "", None, None), now, None)
  }

  /** The tables once the sharing path has saved its empty row. */
  function Started(env: Env, t: Tables, u: UserId, d: CipherData): Tables {
    SaveCipher(Fresh(t), t.next, NewCipher(env, d, Some(u)))
  }

  /** Filling the empty row is the whole creation, or changes nothing. */
  lemma FillExact(env: Env, t: Tables, u: UserId, d: CipherData, collections: bool)
    requires Inv(t)
    ensures var started := Started(env, t, u, d);
      var (t', o) := ShareCipher(env, started, u, t.next, d.(lastKnown := None), collections, true);
      && (o.Done? <==> Acceptable(env, t, u, d) && !collections)
      && (o.Done? ==> Inv(t') && Stored(env, Fresh(t), t', u, t.next, d.atype, None, d))
      && (o.Fail? ==> t' == started)
      && (o == Fail(Malformed) <==> FillingPanics(env, t, u, d, collections))
  {
    var c, row, started := t.next, NewCipher(env, d, Some(u)), Started(env, t, u, d);
    assert c !in t.ciphers;
    hide Inv, Stored;
    FreshKeeps(t);
    SaveCipherKeeps(Fresh(t), c, row);
    UpdateKeeps(env, started, u, c, row, d.(lastKnown := None), true);
    if Acceptable(env, t, u, d) && !collections {
      var t' := ShareCipher(env, started, u, c, d.(lastKnown := None), collections, true).0;
      SameStored(env, started, t', u, c, d.atype, None, d);
      StoredOverStarted(env, t, t', u, d);
    }
  }

  /** What is stored over the empty row is what is stored without it. */
  lemma StoredOverStarted(env: Env, t: Tables, t': Tables, u: UserId, d: CipherData)
    requires Stored(env, Started(env, t, u, d), t', u, t.next, d.atype, None, d)
    ensures Stored(env, Fresh(t), t', u, t.next, d.atype, None, d)
  {
    hide GetFolder, Holds;
  }

  /**
    Creation through the sharing path saves an empty row first. A refusal
    leaves no trace of it; a panic over malformed data leaves the empty row.
   */
  lemma CreateSharedExact(env: Env, t: Tables, u: UserId, d: CipherData, collections: bool)
    requires Inv(t)
    ensures var (t', o) := Perform(env, t, u, CloneOrShareNew(d, collections));
      && (o.Done? <==> Acceptable(env, t, u, d) && !collections)
      && (o.Done? ==> t.next !in t.ciphers && Inv(t') && Stored(env, Fresh(t), t', u, t.next, d.atype, None, d))
      && (o.Fail? ==> t' == if FillingPanics(env, t, u, d, collections)
                            then Fresh(t).(ciphers := t.ciphers[t.next := BareRow(env.now, u, d.atype, d.name)]) else Fresh(t))
      && (o == Fail(Malformed) <==> FillingPanics(env, t, u, d, collections))
  {
    assert t.next !in t.ciphers;
    hide Inv, Stored, Acceptable, FillingPanics, ShareCipher, DeleteCiphers;
    FillExact(env, t, u, d, collections);
    StartedIsUndone(t, NewCipher(env, d, Some(u)));
  }

  lemma StartedIsUndone(t: Tables, row: Cipher)
    requires Inv(t)
    ensures DeleteCiphers(SaveCipher(Fresh(t), t.next, row), {t.next}) == Fresh(t)
  {
    var c := t.next;
    WithoutNone(t.placed, RowsOfCiphers(t.placed, {c}));
    WithoutNone(t.attachments, AttachmentsOn(t.attachments, {c}));
    assert t.ciphers[c := row] - {c} == t.ciphers;
    assert FavoritesBeside(t.favorites, {c}) == t.favorites;
  }

  // ---------- attachments ----------

  lemma AnnounceKeeps(t: Tables, u: UserId, c: Id, fileName: string, key: string, size: int)
    requires Inv(t)
    ensures var t' := DeclareAttachment(t, u, c, fileName, key, size).0; Inv(t') && Evolves(t, t')
  {
    if OwnsCipher(t, c, u) && 0 <= size <= I64_MAX {
      FreshKeeps(t);
      SaveAttachmentKeeps(Fresh(t), Attachment(t.next, c, fileName, size, Some(key)));
    }
  }

  lemma UploadKeeps(env: Env, t: Tables, u: UserId, announced: Option<Attachment>, c: Id,
                    fileName: Option<string>, key: Option<string>, size: nat)
    requires Inv(t)
    requires announced.Some? ==> announced.value in t.attachments && announced.value.cipher == c
    ensures var t' := StoreUpload(env, t, u, announced, c, fileName, key, size).0; Inv(t') && Evolves(t, t')
  {
    match announced
    case Some(a) =>
      if size <= I64_MAX && c in t.ciphers { SaveAttachmentKeeps(t, a.(size := size)); }
      DeleteAttachmentKeeps(t, a.id);
    case None =>
      if OwnsCipher(t, c, u) && fileName.Some? && size <= I64_MAX {
        FreshKeeps(t);
        SaveAttachmentKeeps(Fresh(t), Attachment(t.next, c, fileName.value, size, key));
      }
  }

  // ---------- single actions and lists of them ----------

  lemma EvolvesReflexive(t: Tables)
    ensures Evolves(t, t)
  {
  }

  /** The invariant does not speak of archive dates. */
  lemma ArchivesAreFree(t: Tables, archives: map<(UserId, Id), Time>)
    requires Inv(t)
    ensures Inv(t.(archives := archives)) && Evolves(t, t.(archives := archives))
  {
  }

  lemma SetDeletedKeeps(env: Env, t: Tables, c: Id, at: Option<Time>)
    requires Inv(t)
    ensures Inv(SetDeleted(env, t, c, at)) && Evolves(t, SetDeleted(env, t, c, at))
  {
    if c in t.ciphers {
      SaveCipherKeeps(t, c, t.ciphers[c].(deletedAt := at, updatedAt := env.now));
    }
  }

  lemma FolderActionKeeps(env: Env, t: Tables, u: UserId, a: Action)
    requires Inv(t) && (a.NewFolder? || a.RenameFolder? || a.DropFolder?)
    ensures var t' := Perform(env, t, u, a).0; Inv(t') && Evolves(t, t')
  {
    match a
    case NewFolder(name) =>
      FreshKeeps(t);
      SaveFolderKeeps(Fresh(t), t.next, Folder(u, name));
    case RenameFolder(f, name) =>
      if OwnsFolder(t.folders, f, u) {
        SaveFolderKeeps(t, f, t.folders[f].(name := name));
      }
    case DropFolder(f) =>
      DeleteFoldersKeeps(t, {f});
  }

  lemma PerformKeeps(env: Env, t: Tables, u: UserId, a: Action)
    requires Inv(t)
    ensures var t' := Perform(env, t, u, a).0; Inv(t') && Evolves(t, t')
  {
    hide Inv, Evolves;
    EvolvesReflexive(t);
    match a
    case Create(d) => CreateKeeps(env, t, u, d.(lastKnown := None), true);
    case CloneOrShareNew(d, collections) => CreateSharedKeeps(env, t, u, d, collections);
    case Edit(c, d) => if OwnsCipher(t, c, u) { EditKeeps(env, t, u, c, d, true); }
    case Share(c, d, collections, quiet) => if OwnsCipher(t, c, u) { EditKeeps(env, t, u, c, d, !quiet); }
    case Partial(c, f, fav) => PartialKeeps(env, t, u, c, f, fav);
    case SoftDelete(c) => SetDeletedKeeps(env, t, c, Some(env.now));
    case Restore(c) => SetDeletedKeeps(env, t, c, None);
    case HardDelete(c) => DeleteCiphersKeeps(t, {c});
    case Archive(c) => ArchivesAreFree(t, t.archives[(u, c) := env.now]);
    case TakeOutOfArchive(c) => ArchivesAreFree(t, t.archives - {(u, c)});
    case Announce(c, fileName, key, size) => AnnounceKeeps(t, u, c, fileName, key, size);
    case Upload(c, id, size) =>
      var a := FindAttachment(t.attachments, id);
      if a.Some? && a.value.cipher == c { UploadKeeps(env, t, u, a, c, None, None, size); }
    case UploadLegacy(c, name, key, size) => UploadKeeps(env, t, u, None, c, name, key, size);
    case RemoveAttachment(c, id) => DeleteAttachmentKeeps(t, id);
    case _ => FolderActionKeeps(env, t, u, a);
  }

  lemma {:induction false} PerformEachKeeps(env: Env, t: Tables, u: UserId, actions: seq<Action>)
    requires Inv(t)
    ensures var t' := PerformEach(env, t, u, actions).0; Inv(t') && Evolves(t, t')
  {
    if actions != [] {
      var n := |actions| - 1;
      PerformEachKeeps(env, t, u, actions[..n]);
      var (t', o) := PerformEach(env, t, u, actions[..n]);
      PerformKeeps(env, t', u, actions[n]);
      EvolvesTransitive(t, t', Perform(env, t', u, actions[n]).0);
    }
  }

  // ---------- bulk move ----------

  /** A bulk move never fails half-way; it puts exactly the listed ciphers into the target. */
  lemma {:induction false} MoveEachKeeps(t: Tables, u: UserId, order: seq<Id>, target: Option<Id>)
    requires Inv(t) && forall c :: c in order ==> OwnsCipher(t, c, u)
    requires target.Some? ==> OwnsFolder(t.folders, target.value, u)
    ensures var (t', o) := MoveEach(t, u, order, target);
      && o.Done? && Inv(t') && Evolves(t, t') && t' == t.(placed := t'.placed)
      && (forall c :: c in order ==> GetFolder(t', c, u) == target)
      && (forall r: Row :: r.cipher !in order ==> (r in t'.placed <==> r in t.placed))
  {
    if order != [] {
      var n := |order| - 1;
      var last := order[n];
      assert order == order[..n] + [last];
      MoveEachKeeps(t, u, order[..n], target);
      var t1 := MoveEach(t, u, order[..n], target).0;
      assert last in order;
      assert OwnsCipher(t1, last, u);
      MoveKeeps(t1, last, target, u);
      var t2 := MoveToFolder(t1, last, target, u).0;
      forall c | c in order ensures GetFolder(t2, c, u) == target {
        if c != last {
          SameRowsSameFolder(t1, t2, c, u);
        }
      }
      EvolvesTransitive(t, t1, t2);
    }
  }

  /** The folder found depends only on the cipher's own rows. */
  lemma SameRowsSameFolder(t: Tables, t': Tables, c: Id, u: UserId)
    requires RowsSound(t) && RowsSound(t') && t.folders == t'.folders
    requires forall f :: Row(c, f) in t.placed <==> Row(c, f) in t'.placed
    ensures GetFolder(t, c, u) == GetFolder(t', c, u)
  {
    FirstFolderRow(t.placed, t.folders, c, u);
    FirstFolderRow(t'.placed, t'.folders, c, u);
    if GetFolder(t, c, u).Some? {
      OnlyFolder(t', c, u, GetFolder(t, c, u).value);
    }
  }

  lemma MoveSelectedKeeps(t: Tables, u: UserId, ids: seq<Id>, target: Option<Id>, order: seq<Id>)
    requires Inv(t) && Lists(order, Selected(t, u, ids))
    ensures var t' := MoveSelected(t, u, ids, target, order).0; Inv(t') && Evolves(t, t')
  {
    if target.Some? ==> OwnsFolder(t.folders, target.value, u) {
      MoveEachKeeps(t, u, order, target);
    }
  }

  // ---------- import and rotation ----------

  lemma {:induction false} ImportFoldersKeeps(t: Tables, u: UserId, had: set<Id>, fs: seq<FolderData>)
    requires Inv(t)
    ensures var t' := ImportFolders(t, u, had, fs).0; Inv(t') && Evolves(t, t')
  {
    if fs != [] {
      var n := |fs| - 1;
      ImportFoldersKeeps(t, u, had, fs[..n]);
      var t' := ImportFolders(t, u, had, fs[..n]).0;
      FreshKeeps(t');
      SaveFolderKeeps(Fresh(t'), t'.next, Folder(u, fs[n].name));
      assert Evolves(t', SaveFolder(Fresh(t'), t'.next, Folder(u, fs[n].name)));
      EvolvesTransitive(t, t', SaveFolder(Fresh(t'), t'.next, Folder(u, fs[n].name)));
    }
  }

  lemma {:induction false} ImportCiphersKeeps(env: Env, t: Tables, u: UserId, ds: seq<CipherData>, relations: map<nat, nat>, folders: seq<Id>)
    requires Inv(t)
    ensures var t' := ImportCiphers(env, t, u, ds, relations, folders).0; Inv(t') && Evolves(t, t')
  {
    if ds != [] {
      var n := |ds| - 1;
      ImportCiphersKeeps(env, t, u, ds[..n], relations, folders);
      var (t', o) := ImportCiphers(env, t, u, ds[..n], relations, folders);
      if o.Done? {
        var d := ds[n].(folder := FolderFor(relations, folders, n));
        assert NewCipher(env, ds[n], None) == NewCipher(env, d, None);
        CreateKeeps(env, t', u, d, false);
        EvolvesTransitive(t, t', ImportOne(env, t', u, ds[n], d.folder).0);
      }
    }
  }

  lemma {:induction false} RotateFoldersKeeps(t: Tables, u: UserId, fs: seq<FolderData>)
    requires Inv(t)
    ensures var t' := RotateFolders(t, u, fs).0; Inv(t') && Evolves(t, t')
  {
    if fs != [] {
      var n := |fs| - 1;
      RotateFoldersKeeps(t, u, fs[..n]);
      var (t', o) := RotateFolders(t, u, fs[..n]);
      if o.Done? && fs[n].id.Some? && OwnsFolder(t'.folders, fs[n].id.value, u) {
        var f := fs[n].id.value;
        SaveFolderKeeps(t', f, t'.folders[f].(name := fs[n].name));
        EvolvesTransitive(t, t', RotateFolders(t, u, fs).0);
      }
    }
  }

  lemma {:induction false} RotateCiphersKeeps(env: Env, t: Tables, u: UserId, ds: seq<CipherData>)
    requires Inv(t)
    ensures var t' := RotateCiphers(env, t, u, ds).0; Inv(t') && Evolves(t, t')
  {
    if ds != [] {
      var n := |ds| - 1;
      RotateCiphersKeeps(env, t, u, ds[..n]);
      var (t', o) := RotateCiphers(env, t, u, ds[..n]);
      if o.Done? && ds[n].id.Some? && OwnsCipher(t', ds[n].id.value, u) {
        EditKeeps(env, t', u, ds[n].id.value, ds[n], false);
        EvolvesTransitive(t, t', RotateCiphers(env, t, u, ds).0);
      }
    }
  }

  // ---------- deleting many ----------

  lemma PurgeKeeps(t: Tables, u: UserId)
    requires Inv(t)
    ensures Inv(PurgeVault(t, u)) && Evolves(t, PurgeVault(t, u))
  {
    var t' := DeleteCiphers(t, CiphersOf(t, u));
    DeleteCiphersKeeps(t, CiphersOf(t, u));
    DeleteFoldersKeeps(t', FoldersOf(t', u));
    EvolvesTransitive(t, t', PurgeVault(t, u));
  }

  lemma RemoveUserKeeps(t: Tables, u: UserId)
    requires Inv(t)
    ensures Inv(RemoveUser(t, u).0) && Evolves(t, RemoveUser(t, u).0)
  {
    if u in t.people.users {
      var t1 := DeleteCiphers(t, CiphersOf(t, u));
      DeleteCiphersKeeps(t, CiphersOf(t, u));
      var t2 := t1.(favorites := set x | x in t1.favorites && x.0 != u);
      assert Inv(t2) && Evolves(t, t2);
      DeleteFoldersKeeps(t2, FoldersOf(t2, u));
      EvolvesTransitive(t, t2, DeleteFolders(t2, FoldersOf(t2, u)));
    }
  }

  // ---------- every request, every run ----------

  lemma HandleKeeps(env: Env, t: Tables, u: UserId, r: Request)
    requires Inv(t) && Admissible(t, u, r)
    ensures var t' := Handle(env, t, u, r).0; Inv(t') && Evolves(t, t')
  {
    match r
    case One(a) => PerformKeeps(env, t, u, a);
    case Each(actions) => PerformEachKeeps(env, t, u, actions);
    case Move(ids, target, order) => MoveSelectedKeeps(t, u, ids, target, order);
    case ImportVault(ds, fs, rs) =>
      ImportFoldersKeeps(t, u, FoldersOf(t, u), fs);
      var (t', folders) := ImportFolders(t, u, FoldersOf(t, u), fs);
      ImportCiphersKeeps(env, t', u, ds, RelationMap(rs), folders);
      EvolvesTransitive(t, t', ImportCiphers(env, t', u, ds, RelationMap(rs), folders).0);
    case Rotate(k) =>
      RotateFoldersKeeps(t, u, k.folders);
      var t' := RotateFolders(t, u, k.folders).0;
      RotateCiphersKeeps(env, t', u, k.ciphers);
      EvolvesTransitive(t, t', RotateCiphers(env, t', u, k.ciphers).0);
    case Purge(_) => PurgeKeeps(t, u);
    case DeleteAccount(victim) => RemoveUserKeeps(t, victim);
    case PurgeTrash(before) => DeleteCiphersKeeps(t, Trashed(t, before));
  }

  datatype Call = Call(env: Env, user: UserId, request: Request)

  function Empty(people: People): Tables {
    Tables(map[], map[], [], {}, map[], [], people, 0)
  }

  /** A login whose data is not an object, sent over the sharing path to an empty vault. */
  function BrokenLogin(): CipherData {
    CipherData(None, None, false, 1, None, "mail", None, None, map[1 := "[]"], false, None, None, None, true, None, None)
  }

  /** The request fails, and the vault it was sent to has an item nobody asked for: the bare name and type. */
  lemma EmptyRowStays(env: Env, people: People, u: UserId)
    ensures var t := Empty(people);
      var (t', o) := Perform(env, t, u, CloneOrShareNew(BrokenLogin(), false));
      && o == Fail(Malformed)
      && t' == t.(next := 1, ciphers := map[0 := Cipher(Some(u), 1, Payload(None, "mail", None, None, "", None, None), env.now, None)])
  {
    CreateSharedExact(env, Empty(people), u, BrokenLogin(), false);
  }

  /** The states a run passes through, starting from an empty vault. */
  ghost predicate Execution(states: seq<Tables>, calls: seq<Call>) {
    && |states| == |calls| + 1
    && states[0] == Empty(states[0].people)
    && forall i {:trigger calls[i]} :: 0 <= i < |calls| ==>
         && Admissible(states[i], calls[i].user, calls[i].request)
         && states[i + 1] == Handle(calls[i].env, states[i], calls[i].user, calls[i].request).0
  }

  lemma {:induction false} ReachableInvariant(states: seq<Tables>, calls: seq<Call>, i: nat)
    requires Execution(states, calls) && i < |states|
    ensures Inv(states[i])
  {
    if i > 0 {
      hide Inv, Evolves, Handle;
      ReachableInvariant(states, calls, i - 1);
      assert Admissible(states[i - 1], calls[i - 1].user, calls[i - 1].request);
      HandleKeeps(calls[i - 1].env, states[i - 1], calls[i - 1].user, calls[i - 1].request);
    }
  }

  /** In every reachable state a cipher is in at most one folder, and that folder belongs to the cipher's owner. */
  lemma OneFolderOfTheOwner(states: seq<Tables>, calls: seq<Call>, i: nat, c: Id, f: Id, g: Id)
    requires Execution(states, calls) && i < |states|
    requires Row(c, f) in states[i].placed && Row(c, g) in states[i].placed
    ensures f == g
    ensures exists u :: OwnsCipher(states[i], c, u) && OwnsFolder(states[i].folders, f, u)
  {
    ReachableInvariant(states, calls, i);
    var t := states[i];
    var u := t.folders[f].owner;
    assert OwnsCipher(t, c, u);
    OnlyFolder(t, c, u, f);
    OnlyFolder(t, c, u, g);
  }

  lemma StepOfRun(states: seq<Tables>, calls: seq<Call>, k: nat)
    requires Execution(states, calls) && k < |calls|
    ensures Evolves(states[k], states[k + 1])
  {
    hide Inv, Handle, Evolves;
    var call := calls[k];
    ReachableInvariant(states, calls, k);
    assert Admissible(states[k], call.user, call.request);
    HandleKeeps(call.env, states[k], call.user, call.request);
  }

  lemma {:induction false} RunEvolves(states: seq<Tables>, calls: seq<Call>, i: nat, j: nat)
    requires Execution(states, calls) && i <= j < |states|
    ensures Evolves(states[i], states[j])
    decreases j
  {
    if i == j {
      EvolvesReflexive(states[i]);
    } else {
      hide Handle, Evolves;
      RunEvolves(states, calls, i, j - 1);
      StepOfRun(states, calls, j - 1);
      EvolvesTransitive(states[i], states[j - 1], states[j]);
    }
  }

  /** Ownership is for life: whatever happens between two moments, a cipher or folder present at both has the same owner. */
  lemma OwnersNeverChange(states: seq<Tables>, calls: seq<Call>, i: nat, j: nat)
    requires Execution(states, calls) && i <= j < |states|
    ensures forall c :: c in states[i].ciphers && c in states[j].ciphers ==> states[i].ciphers[c].owner == states[j].ciphers[c].owner
    ensures forall f :: f in states[i].folders && f in states[j].folders ==> states[i].folders[f].owner == states[j].folders[f].owner
    ensures forall c :: c in states[j].ciphers && c !in states[i].ciphers ==> c >= states[i].next
  {
    ReachableInvariant(states, calls, i);
    RunEvolves(states, calls, i, j);
  }
}
