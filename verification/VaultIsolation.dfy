/**
  One user's requests and another user's vault: whatever is asked, by whomever,
  nobody else's ciphers, folders, attachments, favorites or archive dates change.
 */
module VaultIsolation {
  import opened Sequences
  import opened Wrappers
  import opened VaultTables
  import opened VaultHandlers
  import opened VaultLaws
  import opened VaultSync
  import opened VaultDeletion

  // ---------- what stays ----------

  /** The cipher, its placements and its attachments are the same. */
  ghost predicate SameCipher(t: Tables, t': Tables, c: Id) {
    && c in t.ciphers && c in t'.ciphers && t'.ciphers[c] == t.ciphers[c]
    && (forall f :: Row(c, f) in t'.placed <==> Row(c, f) in t.placed)
    && On(t'.attachments, {c}) == On(t.attachments, {c})
  }

  predicate SameMarks(t: Tables, t': Tables, v: UserId, c: Id) {
    && ((v, c) in t'.favorites <==> (v, c) in t.favorites)
    && ((v, c) in t'.archives <==> (v, c) in t.archives)
    && ((v, c) in t.archives ==> t'.archives[(v, c)] == t.archives[(v, c)])
  }

  /** Everything that is not this user's is as it was. */
  ghost predicate Isolated(t: Tables, t': Tables, u: UserId) {
    && (forall c :: c in t.ciphers && t.ciphers[c].owner != Some(u) ==> SameCipher(t, t', c))
    && (forall f :: f in t.folders && t.folders[f].owner != u ==> f in t'.folders && t'.folders[f] == t.folders[f])
    && (forall v: UserId, c: Id :: v != u ==> SameMarks(t, t', v, c))
  }

  lemma IsolatedReflexive(t: Tables, u: UserId)
    ensures Isolated(t, t, u)
  {
  }

  lemma IsolatedTransitive(t: Tables, t1: Tables, t2: Tables, u: UserId)
    requires Isolated(t, t1, u) && Isolated(t1, t2, u)
    ensures Isolated(t, t2, u)
  {
    forall c | c in t.ciphers && t.ciphers[c].owner != Some(u) ensures SameCipher(t, t2, c) {
      assert SameCipher(t, t1, c) && SameCipher(t1, t2, c);
    }
    forall v: UserId, c: Id | v != u ensures SameMarks(t, t2, v, c) {
      assert SameMarks(t, t1, v, c) && SameMarks(t1, t2, v, c);
    }
  }

  // ---------- the table operations ----------

  /** Ciphers, placements and marks may change for the user's own or for new ciphers. */
  lemma RowsIsolated(t: Tables, t': Tables, u: UserId, c: Id)
    requires c in t.ciphers ==> t.ciphers[c].owner == Some(u)
    requires t'.attachments == t.attachments && t'.folders == t.folders
    requires forall x :: x in t.ciphers && x != c ==> x in t'.ciphers && t'.ciphers[x] == t.ciphers[x]
    requires forall r: Row :: r.cipher != c ==> (r in t'.placed <==> r in t.placed)
    requires forall x :: x != (u, c) ==> (x in t'.favorites <==> x in t.favorites)
    requires forall x :: x != (u, c) ==> (x in t'.archives <==> x in t.archives) && (x in t.archives ==> t'.archives[x] == t.archives[x])
    ensures Isolated(t, t', u)
  {
    forall x | x in t.ciphers && t.ciphers[x].owner != Some(u) ensures SameCipher(t, t', x) {
      assert x != c;
    }
    forall v: UserId, x: Id | v != u ensures SameMarks(t, t', v, x) {
      assert (v, x) != (u, c);
    }
  }

  lemma StoredIsolated(env: Env, t: Tables, t': Tables, u: UserId, c: Id, atype: int, deletedAt: Option<Time>, d: CipherData)
    requires Stored(env, t, t', u, c, atype, deletedAt, d) && (c in t.ciphers ==> t.ciphers[c].owner == Some(u))
    ensures Isolated(t, t', u)
  {
    hide GetFolder, Holds;
    RowsIsolated(t, t', u, c);
  }

  lemma FreshIsolated(t: Tables, u: UserId)
    ensures Isolated(t, Fresh(t), u)
  {
  }

  lemma FoldersIsolated(t: Tables, t': Tables, u: UserId)
    requires t' == t.(folders := t'.folders, next := t'.next)
    requires forall f :: f in t.folders && t.folders[f].owner != u ==> f in t'.folders && t'.folders[f] == t.folders[f]
    ensures Isolated(t, t', u)
  {
  }

  lemma CiphersDeletedIsolated(t: Tables, u: UserId, cs: set<Id>)
    requires Inv(t) && forall c :: c in cs && c in t.ciphers ==> t.ciphers[c].owner == Some(u)
    ensures Isolated(t, DeleteCiphers(t, cs), u)
  {
    var t' := DeleteCiphers(t, cs);
    forall c | c in t.ciphers && t.ciphers[c].owner != Some(u) ensures SameCipher(t, t', c) {
      OnWithout(t.attachments, AttachmentsOn(t.attachments, cs), c);
    }
    forall v: UserId, c: Id | v != u ensures SameMarks(t, t', v, c) {
      if (v, c) in t.favorites {
        assert OwnsCipher(t, c, v);
      }
    }
  }

  lemma FoldersDeletedIsolated(t: Tables, u: UserId, fs: set<Id>)
    requires Inv(t) && forall f :: f in fs && f in t.folders ==> t.folders[f].owner == u
    ensures Isolated(t, DeleteFolders(t, fs), u)
  {
    var t' := DeleteFolders(t, fs);
    forall c | c in t.ciphers && t.ciphers[c].owner != Some(u) ensures SameCipher(t, t', c) {
      forall f ensures Row(c, f) in t'.placed <==> Row(c, f) in t.placed {
        if Row(c, f) in t.placed {
          assert t.ciphers[Row(c, f).cipher].owner == Some(t.folders[Row(c, f).folder].owner);
        }
      }
    }
  }

  lemma OnSnoc(atts: seq<Attachment>, a: Attachment, c: Id)
    ensures On(atts + [a], {c}) == On(atts, {c}) + (if a.cipher == c then [a] else [])
  {
    assert (atts + [a])[..|atts|] == atts;
  }

  lemma AttachmentsIsolated(t: Tables, t': Tables, u: UserId)
    requires t' == t.(attachments := t'.attachments, next := t'.next)
    requires forall c :: c in t.ciphers && t.ciphers[c].owner != Some(u) ==> On(t'.attachments, {c}) == On(t.attachments, {c})
    ensures Isolated(t, t', u)
  {
    hide On;
    forall c | c in t.ciphers && t.ciphers[c].owner != Some(u) ensures SameCipher(t, t', c) {
    }
  }

  /** Saving a row on an own cipher, over none or over one that was on an own cipher too. */
  lemma AttachmentSavedIsolated(t: Tables, u: UserId, a: Attachment)
    requires OwnsCipher(t, a.cipher, u) && forall x :: x in t.attachments && x.id == a.id ==> OwnsCipher(t, x.cipher, u)
    ensures Isolated(t, SaveAttachment(t, a), u)
  {
    var rest := Without(t.attachments, WithId(t.attachments, a.id));
    forall c | c in t.ciphers && t.ciphers[c].owner != Some(u) ensures On(SaveAttachment(t, a).attachments, {c}) == On(t.attachments, {c}) {
      OnWithout(t.attachments, WithId(t.attachments, a.id), c);
      OnSnoc(rest, a, c);
      assert On(rest, {c}) + [] == On(rest, {c});
    }
    AttachmentsIsolated(t, SaveAttachment(t, a), u);
  }

  lemma AttachmentDeletedIsolated(t: Tables, u: UserId, id: Id)
    requires forall x :: x in t.attachments && x.id == id ==> OwnsCipher(t, x.cipher, u)
    ensures Isolated(t, DeleteAttachment(t, id), u)
  {
    forall c | c in t.ciphers && t.ciphers[c].owner != Some(u) ensures On(DeleteAttachment(t, id).attachments, {c}) == On(t.attachments, {c}) {
      OnWithout(t.attachments, WithId(t.attachments, id), c);
    }
    AttachmentsIsolated(t, DeleteAttachment(t, id), u);
  }

  // ---------- one action ----------

  lemma UpdateIsolated(env: Env, t: Tables, u: UserId, c: Id, current: Cipher, d: CipherData, checkStale: bool)
    requires Inv(t) && c < t.next
    requires c in t.ciphers ==> t.ciphers[c] == current && current.owner == Some(u)
    ensures Isolated(t, UpdateFromData(env, t, u, c, current, d, checkStale).0, u)
  {
    hide Inv, Stored, Isolated, UpdateFromData, UpdateError;
    UpdateKeeps(env, t, u, c, current, d, checkStale);
    var (t', o) := UpdateFromData(env, t, u, c, current, d, checkStale);
    match o
    case Done => StoredIsolated(env, t, t', u, c, current.atype, current.deletedAt, d);
    case Fail(_) => IsolatedReflexive(t, u);
  }

  lemma NewIsolated(env: Env, t: Tables, u: UserId, current: Cipher, d: CipherData, checkStale: bool)
    requires Inv(t)
    ensures Isolated(t, UpdateFromData(env, Fresh(t), u, t.next, current, d, checkStale).0, u)
  {
    FreshKeeps(t);
    assert t.next !in Fresh(t).ciphers;
    hide Inv, Isolated, UpdateFromData;
    UpdateIsolated(env, Fresh(t), u, t.next, current, d, checkStale);
    FreshIsolated(t, u);
    IsolatedTransitive(t, Fresh(t), UpdateFromData(env, Fresh(t), u, t.next, current, d, checkStale).0, u);
  }

  lemma NewSharedIsolated(env: Env, t: Tables, u: UserId, d: CipherData, collections: bool)
    requires Inv(t)
    ensures Isolated(t, Perform(env, t, u, CloneOrShareNew(d, collections)).0, u)
  {
    assert t.next !in t.ciphers;
    CreateSharedExact(env, t, u, d, collections);
    hide Inv, Stored, CreateShared;
    var (t', o) := Perform(env, t, u, CloneOrShareNew(d, collections));
    match o
    case Done =>
      StoredIsolated(env, Fresh(t), t', u, t.next, d.atype, None, d);
      FreshIsolated(t, u);
      IsolatedTransitive(t, Fresh(t), t', u);
    case Fail(_) =>
      RowsIsolated(t, t', u, t.next);
  }

  lemma PartialIsolated(env: Env, t: Tables, u: UserId, c: Id, folder: Option<Id>, favorite: bool)
    requires Inv(t)
    ensures Isolated(t, Perform(env, t, u, Partial(c, folder, favorite)).0, u)
  {
    PartialKeeps(env, t, u, c, folder, favorite);
    hide Inv, GetFolder, PartialUpdate;
    var (t', o) := Perform(env, t, u, Partial(c, folder, favorite));
    if o.Done? {
      RowsIsolated(t, t', u, c);
    } else {
      IsolatedReflexive(t, u);
    }
  }

  lemma NewAttachmentIsolated(t: Tables, u: UserId, a: Attachment)
    requires Inv(t) && OwnsCipher(t, a.cipher, u) && a.id == t.next
    ensures Isolated(t, SaveAttachment(Fresh(t), a), u)
  {
    assert forall x :: x in t.attachments ==> x.id != a.id;
    hide Inv, Isolated;
    FreshIsolated(t, u);
    AttachmentSavedIsolated(Fresh(t), u, a);
    IsolatedTransitive(t, Fresh(t), SaveAttachment(Fresh(t), a), u);
  }

  lemma UploadIsolated(env: Env, t: Tables, u: UserId, announced: Option<Attachment>, c: Id,
                       fileName: Option<string>, key: Option<string>, size: nat)
    requires Inv(t)
    requires announced.Some? ==> announced.value in t.attachments && announced.value.cipher == c
    ensures Isolated(t, StoreUpload(env, t, u, announced, c, fileName, key, size).0, u)
  {
    hide Inv, Isolated, SaveAttachment, DeleteAttachment;
    IsolatedReflexive(t, u);
    if OwnsCipher(t, c, u) {
      match announced
      case Some(a) =>
        UniqueId(t, a);
        AttachmentSavedIsolated(t, u, a.(size := size));
        AttachmentDeletedIsolated(t, u, a.id);
      case None =>
        if fileName.Some? {
          NewAttachmentIsolated(t, u, Attachment(t.next, c, fileName.value, size, key));
        }
    }
  }

  lemma AttachmentActionIsolated(env: Env, t: Tables, u: UserId, a: Action)
    requires Inv(t) && (a.Announce? || a.Upload? || a.UploadLegacy? || a.RemoveAttachment?)
    ensures Isolated(t, Perform(env, t, u, a).0, u)
  {
    hide Inv, Isolated, SaveAttachment, DeleteAttachment, StoreUpload;
    IsolatedReflexive(t, u);
    match a
    case Announce(c, fileName, key, size) =>
      if OwnsCipher(t, c, u) { NewAttachmentIsolated(t, u, Attachment(t.next, c, fileName, size, Some(key))); }
    case Upload(c, id, size) =>
      var x := FindAttachment(t.attachments, id);
      if x.Some? && x.value.cipher == c { UploadIsolated(env, t, u, x, c, None, None, size); }
    case UploadLegacy(c, name, key, size) => UploadIsolated(env, t, u, None, c, name, key, size);
    case RemoveAttachment(c, id) =>
      var x := FindAttachment(t.attachments, id);
      if x.Some? && x.value.cipher == c && OwnsCipher(t, c, u) {
        UniqueId(t, x.value);
        AttachmentDeletedIsolated(t, u, id);
      }
  }

  lemma FolderActionIsolated(env: Env, t: Tables, u: UserId, a: Action)
    requires Inv(t) && (a.NewFolder? || a.RenameFolder? || a.DropFolder?)
    ensures Isolated(t, Perform(env, t, u, a).0, u)
  {
    hide Isolated, DeleteFolders;
    IsolatedReflexive(t, u);
    match a
    case NewFolder(name) =>
      assert t.next !in t.folders;
      FoldersIsolated(t, SaveFolder(Fresh(t), t.next, Folder(u, name)), u);
    case RenameFolder(f, name) =>
      if OwnsFolder(t.folders, f, u) { FoldersIsolated(t, SaveFolder(t, f, t.folders[f].(name := name)), u); }
    case DropFolder(f) =>
      if OwnsFolder(t.folders, f, u) { FoldersDeletedIsolated(t, u, {f}); }
  }

  /** Deleting, restoring, archiving: the owner's request alone does anything. */
  lemma OwnActionIsolated(env: Env, t: Tables, u: UserId, a: Action)
    requires Inv(t) && (a.SoftDelete? || a.Restore? || a.HardDelete? || a.Archive? || a.TakeOutOfArchive?)
    ensures Isolated(t, Perform(env, t, u, a).0, u)
  {
    hide Inv, Isolated;
    IsolatedReflexive(t, u);
    if OwnsCipher(t, a.cipher, u) {
      if a.HardDelete? {
        CiphersDeletedIsolated(t, u, {a.cipher});
      } else {
        RowsIsolated(t, Perform(env, t, u, a).0, u, a.cipher);
      }
    }
  }

  lemma PerformIsolated(env: Env, t: Tables, u: UserId, a: Action)
    requires Inv(t)
    ensures Isolated(t, Perform(env, t, u, a).0, u)
  {
    assert forall c :: c in t.ciphers ==> c < t.next;
    hide Inv, Isolated, UpdateFromData, CreateShared, PartialUpdate;
    IsolatedReflexive(t, u);
    match a
    case Create(d) => NewIsolated(env, t, u, NewCipher(env, d, None), d.(lastKnown := None), true);
    case CloneOrShareNew(d, collections) => NewSharedIsolated(env, t, u, d, collections);
    case Edit(c, d) => if OwnsCipher(t, c, u) { UpdateIsolated(env, t, u, c, t.ciphers[c], d, true); }
    case Share(c, d, _, quiet) => if OwnsCipher(t, c, u) { UpdateIsolated(env, t, u, c, t.ciphers[c], d, !quiet); }
    case Partial(c, f, fav) => PartialIsolated(env, t, u, c, f, fav);
    case NewFolder(_) => FolderActionIsolated(env, t, u, a);
    case RenameFolder(_, _) => FolderActionIsolated(env, t, u, a);
    case DropFolder(_) => FolderActionIsolated(env, t, u, a);
    case Announce(_, _, _, _) => AttachmentActionIsolated(env, t, u, a);
    case Upload(_, _, _) => AttachmentActionIsolated(env, t, u, a);
    case UploadLegacy(_, _, _, _) => AttachmentActionIsolated(env, t, u, a);
    case RemoveAttachment(_, _) => AttachmentActionIsolated(env, t, u, a);
    case _ => OwnActionIsolated(env, t, u, a);
  }

  // ---------- requests on many items ----------

  lemma {:induction false} EachIsolated(env: Env, t: Tables, u: UserId, actions: seq<Action>)
    requires Inv(t)
    ensures Isolated(t, PerformEach(env, t, u, actions).0, u)
  {
    hide Inv, Isolated, Perform;
    IsolatedReflexive(t, u);
    if actions != [] {
      var n := |actions| - 1;
      EachIsolated(env, t, u, actions[..n]);
      PerformEachKeeps(env, t, u, actions[..n]);
      var t1 := PerformEach(env, t, u, actions[..n]).0;
      PerformIsolated(env, t1, u, actions[n]);
      IsolatedTransitive(t, t1, Perform(env, t1, u, actions[n]).0, u);
    }
  }

  lemma MoveOneIsolated(t: Tables, u: UserId, c: Id, target: Option<Id>)
    requires Inv(t) && OwnsCipher(t, c, u) && (target.Some? ==> OwnsFolder(t.folders, target.value, u))
    ensures Isolated(t, MoveToFolder(t, c, target, u).0, u)
  {
    MoveKeeps(t, c, target, u);
    hide Inv, GetFolder, MoveToFolder;
    RowsIsolated(t, MoveToFolder(t, c, target, u).0, u, c);
  }

  lemma {:induction false} MoveEachIsolated(t: Tables, u: UserId, order: seq<Id>, target: Option<Id>)
    requires Inv(t) && (forall c :: c in order ==> OwnsCipher(t, c, u)) && (target.Some? ==> OwnsFolder(t.folders, target.value, u))
    ensures Isolated(t, MoveEach(t, u, order, target).0, u)
  {
    hide Inv, Isolated, MoveToFolder, GetFolder;
    IsolatedReflexive(t, u);
    if order != [] {
      var n := |order| - 1;
      MoveEachIsolated(t, u, order[..n], target);
      MoveEachKeeps(t, u, order[..n], target);
      var t1 := MoveEach(t, u, order[..n], target).0;
      assert order[n] in order;
      MoveOneIsolated(t1, u, order[n], target);
      IsolatedTransitive(t, t1, MoveToFolder(t1, order[n], target, u).0, u);
    }
  }

  lemma {:induction false} ImportFoldersIsolated(t: Tables, u: UserId, had: set<Id>, fs: seq<FolderData>)
    requires Inv(t)
    ensures Isolated(t, ImportFolders(t, u, had, fs).0, u)
  {
    hide Isolated;
    IsolatedReflexive(t, u);
    if fs != [] {
      var n := |fs| - 1;
      ImportFoldersIsolated(t, u, had, fs[..n]);
      ImportFoldersKeeps(t, u, had, fs[..n]);
      var t1 := ImportFolders(t, u, had, fs[..n]).0;
      FoldersIsolated(t1, SaveFolder(Fresh(t1), t1.next, Folder(u, fs[n].name)), u);
      IsolatedTransitive(t, t1, SaveFolder(Fresh(t1), t1.next, Folder(u, fs[n].name)), u);
    }
  }

  lemma {:induction false} ImportCiphersIsolated(env: Env, t: Tables, u: UserId, ds: seq<CipherData>, relations: map<nat, nat>, folders: seq<Id>)
    requires Inv(t)
    ensures Isolated(t, ImportCiphers(env, t, u, ds, relations, folders).0, u)
  {
    hide Inv, Isolated, UpdateFromData;
    IsolatedReflexive(t, u);
    if ds != [] {
      var n := |ds| - 1;
      ImportCiphersIsolated(env, t, u, ds[..n], relations, folders);
      ImportCiphersKeeps(env, t, u, ds[..n], relations, folders);
      var t1 := ImportCiphers(env, t, u, ds[..n], relations, folders).0;
      var d := ds[n].(folder := FolderFor(relations, folders, n));
      NewIsolated(env, t1, u, NewCipher(env, ds[n], None), d, false);
      IsolatedTransitive(t, t1, UpdateFromData(env, Fresh(t1), u, t1.next, NewCipher(env, ds[n], None), d, false).0, u);
    }
  }

  lemma {:induction false} RotateFoldersIsolated(t: Tables, u: UserId, fs: seq<FolderData>)
    requires Inv(t)
    ensures Isolated(t, RotateFolders(t, u, fs).0, u)
  {
    hide Inv, Isolated;
    IsolatedReflexive(t, u);
    if fs != [] {
      var n := |fs| - 1;
      RotateFoldersIsolated(t, u, fs[..n]);
      RotateFoldersKeeps(t, u, fs[..n]);
      var t1 := RotateFolders(t, u, fs[..n]).0;
      if fs[n].id.Some? && OwnsFolder(t1.folders, fs[n].id.value, u) {
        var f := fs[n].id.value;
        FoldersIsolated(t1, SaveFolder(t1, f, t1.folders[f].(name := fs[n].name)), u);
        IsolatedTransitive(t, t1, SaveFolder(t1, f, t1.folders[f].(name := fs[n].name)), u);
      }
    }
  }

  lemma {:induction false} RotateCiphersIsolated(env: Env, t: Tables, u: UserId, ds: seq<CipherData>)
    requires Inv(t)
    ensures Isolated(t, RotateCiphers(env, t, u, ds).0, u)
  {
    hide Inv, Isolated, UpdateFromData;
    IsolatedReflexive(t, u);
    if ds != [] {
      var n := |ds| - 1;
      RotateCiphersIsolated(env, t, u, ds[..n]);
      RotateCiphersKeeps(env, t, u, ds[..n]);
      var t1 := RotateCiphers(env, t, u, ds[..n]).0;
      if ds[n].id.Some? && OwnsCipher(t1, ds[n].id.value, u) {
        var c := ds[n].id.value;
        assert c < t1.next by { IdsBelow(t1); }
        UpdateIsolated(env, t1, u, c, t1.ciphers[c], ds[n], false);
        IsolatedTransitive(t, t1, UpdateFromData(env, t1, u, c, t1.ciphers[c], ds[n], false).0, u);
      }
    }
  }

  lemma IdsBelow(t: Tables)
    requires Inv(t)
    ensures forall c :: c in t.ciphers ==> c < t.next
  {
  }

  lemma ImportIsolated(env: Env, t: Tables, u: UserId, ds: seq<CipherData>, fs: seq<FolderData>, rs: seq<Relation>)
    requires Inv(t)
    ensures Isolated(t, Import(env, t, u, ds, fs, rs).0, u)
  {
    hide Inv, Isolated, ImportFolders, ImportCiphers;
    IsolatedReflexive(t, u);
    ImportFoldersIsolated(t, u, FoldersOf(t, u), fs);
    ImportFoldersKeeps(t, u, FoldersOf(t, u), fs);
    var (t1, folders) := ImportFolders(t, u, FoldersOf(t, u), fs);
    ImportCiphersIsolated(env, t1, u, ds, RelationMap(rs), folders);
    IsolatedTransitive(t, t1, ImportCiphers(env, t1, u, ds, RelationMap(rs), folders).0, u);
  }

  lemma RotationIsolated(env: Env, t: Tables, u: UserId, k: KeyData)
    requires Inv(t)
    ensures Isolated(t, RotateKeys(env, t, u, k).0, u)
  {
    hide Inv, Isolated, RotateFolders, RotateCiphers;
    IsolatedReflexive(t, u);
    RotateFoldersIsolated(t, u, k.folders);
    RotateFoldersKeeps(t, u, k.folders);
    var t1 := RotateFolders(t, u, k.folders).0;
    RotateCiphersIsolated(env, t1, u, k.ciphers);
    IsolatedTransitive(t, t1, RotateCiphers(env, t1, u, k.ciphers).0, u);
  }

  lemma PurgeIsolated(t: Tables, u: UserId)
    requires Inv(t)
    ensures Isolated(t, PurgeVault(t, u), u)
  {
    hide Inv, Isolated;
    CiphersDeletedIsolated(t, u, CiphersOf(t, u));
    DeleteCiphersKeeps(t, CiphersOf(t, u));
    var t1 := DeleteCiphers(t, CiphersOf(t, u));
    FoldersDeletedIsolated(t1, u, FoldersOf(t1, u));
    IsolatedTransitive(t, t1, PurgeVault(t, u), u);
  }

  /** Requests about the sender's own vault; an administrator deletes accounts, and the server itself purges the trash. */
  predicate OwnVault(r: Request) { !r.DeleteAccount? && !r.PurgeTrash? }

  lemma HandleIsolated(env: Env, t: Tables, u: UserId, r: Request)
    requires Inv(t) && Admissible(t, u, r) && OwnVault(r)
    ensures Isolated(t, Handle(env, t, u, r).0, u)
  {
    hide Inv, Isolated, Perform, PerformEach, MoveEach, Import, RotateKeys, PurgeVault;
    IsolatedReflexive(t, u);
    match r
    case One(a) => PerformIsolated(env, t, u, a);
    case Each(actions) => EachIsolated(env, t, u, actions);
    case Move(ids, target, order) =>
      if target.Some? ==> OwnsFolder(t.folders, target.value, u) { MoveEachIsolated(t, u, order, target); }
    case ImportVault(ds, fs, rs) => ImportIsolated(env, t, u, ds, fs, rs);
    case Rotate(k) => RotationIsolated(env, t, u, k);
    case Purge(_) => PurgeIsolated(t, u);
  }

  // ---------- theorems ----------

  /** A cipher of the user is there with the same row and looks the same to him. */
  ghost predicate LooksTheSame(t: Tables, t': Tables, v: UserId, c: Id)
    requires c in t.ciphers
  {
    c in t'.ciphers && t'.ciphers[c] == t.ciphers[c] && DirectView(t', v, c) == DirectView(t, v, c)
  }

  /** All the user has, ciphers as rendered and folders, is as it was. */
  ghost predicate VaultUntouched(t: Tables, t': Tables, v: UserId) {
    && (forall c :: c in t.ciphers && t.ciphers[c].owner == Some(v) ==> LooksTheSame(t, t', v, c))
    && (forall f :: f in t.folders && t.folders[f].owner == v ==> f in t'.folders && t'.folders[f] == t.folders[f])
  }

  lemma IsolatedLooks(t: Tables, t': Tables, u: UserId, v: UserId, c: Id)
    requires Inv(t) && Inv(t') && Isolated(t, t', u) && v != u && c in t.ciphers && t.ciphers[c].owner == Some(v)
    ensures LooksTheSame(t, t', v, c)
  {
    assert SameCipher(t, t', c) && SameMarks(t, t', v, c);
    forall f | Row(c, f) in t.placed ensures OwnsFolder(t.folders, f, v) <==> OwnsFolder(t'.folders, f, v) {
      assert t.ciphers[Row(c, f).cipher].owner == Some(t.folders[Row(c, f).folder].owner);
    }
    hide Isolated, On;
    SameAnswer(t, t', c, v);
  }

  /**
    Whatever a user asks for his own vault, and whether it succeeds or not,
    every other user's ciphers look as before and his folders are as before.
   */
  lemma OthersUntouched(env: Env, t: Tables, u: UserId, r: Request, v: UserId)
    requires Inv(t) && Admissible(t, u, r) && OwnVault(r) && v != u
    ensures VaultUntouched(t, Handle(env, t, u, r).0, v)
  {
    hide Inv, Handle, LooksTheSame, SameCipher, SameMarks;
    HandleIsolated(env, t, u, r);
    HandleKeeps(env, t, u, r);
    forall c | c in t.ciphers && t.ciphers[c].owner == Some(v) ensures LooksTheSame(t, Handle(env, t, u, r).0, v, c) {
      IsolatedLooks(t, Handle(env, t, u, r).0, u, v, c);
    }
  }

  lemma UntouchedTransitive(t: Tables, t1: Tables, t2: Tables, v: UserId)
    requires VaultUntouched(t, t1, v) && VaultUntouched(t1, t2, v)
    ensures VaultUntouched(t, t2, v)
  {
    hide DirectView;
    forall c | c in t.ciphers && t.ciphers[c].owner == Some(v) ensures LooksTheSame(t, t2, v, c) {
      assert LooksTheSame(t, t1, v, c) && LooksTheSame(t1, t2, v, c);
    }
  }

  lemma UntouchedStep(states: seq<Tables>, calls: seq<Call>, k: nat, v: UserId)
    requires Execution(states, calls) && k < |calls| && calls[k].user != v && OwnVault(calls[k].request)
    ensures VaultUntouched(states[k], states[k + 1], v)
  {
    ReachableInvariant(states, calls, k);
    var call := calls[k];
    hide Handle, Inv, VaultUntouched;
    assert Admissible(states[k], call.user, call.request);
    OthersUntouched(call.env, states[k], call.user, call.request, v);
  }

  lemma NothingHappened(t: Tables, v: UserId)
    ensures VaultUntouched(t, t, v)
  {
  }

  /** Over any stretch of any run in which others ask about their own vaults, a user's vault stays as it is. */
  lemma {:induction false} QuietVault(states: seq<Tables>, calls: seq<Call>, i: nat, j: nat, v: UserId)
    requires Execution(states, calls) && i <= j < |states|
    requires forall k :: i <= k < j ==> calls[k].user != v && OwnVault(calls[k].request)
    ensures VaultUntouched(states[i], states[j], v)
    decreases j
  {
    assert |states| == |calls| + 1;
    hide Execution, VaultUntouched;
    NothingHappened(states[i], v);
    if i < j {
      QuietVault(states, calls, i, j - 1, v);
      UntouchedStep(states, calls, j - 1, v);
      UntouchedTransitive(states[i], states[j - 1], states[j], v);
    }
  }
}
