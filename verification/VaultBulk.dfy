/**
  The three requests that work on many ciphers at once: bulk move, import and
  key rotation. Each is compared with what it was asked to do.
 */
module VaultBulk {
  import opened Sequences
  import opened Wrappers
  import opened VaultTables
  import opened VaultHandlers
  import opened VaultLaws

  // ---------- bulk move ----------

  function Elements(ids: seq<Id>): set<Id> { set x | x in ids }

  lemma {:induction false} ElementsCount(ids: seq<Id>)
    ensures |Elements(ids)| <= |ids|
    ensures |Elements(ids)| == |ids| <==> Distinct(ids)
  {
    if ids != [] {
      var n := |ids| - 1;
      var front := ids[..n];
      ElementsCount(front);
      assert ids == front + [ids[n]];
      assert Elements(ids) == Elements(front) + {ids[n]};
      if ids[n] in front {
        assert Elements(ids) == Elements(front);
        var i :| 0 <= i < n && front[i] == ids[n];
        assert ids[i] == ids[n];
      } else {
        assert Distinct(ids) <==> Distinct(front);
      }
    }
  }

  lemma SubsetCount(a: set<Id>, b: set<Id>)
    requires a <= b
    ensures |a| <= |b|
    ensures |a| == |b| ==> a == b
  {
    var rest := b - a;
    assert b == a + rest;
    if a != b {
      var x :| x in rest;
      assert |rest| > 0;
    }
  }

  predicate ValidTarget(t: Tables, u: UserId, target: Option<Id>) {
    target.Some? ==> OwnsFolder(t.folders, target.value, u)
  }

  /** Asked for at least one cipher, a bulk move reports success exactly when it was asked for each cipher once and all are the user's. */
  lemma MoveSucceeds(env: Env, t: Tables, u: UserId, ids: seq<Id>, target: Option<Id>, order: seq<Id>)
    requires Inv(t) && Lists(order, Selected(t, u, ids))
    ensures ids != [] ==>
      (Handle(env, t, u, Move(ids, target, order)).1.Done? <==>
       ValidTarget(t, u, target) && Distinct(ids) && forall c :: c in ids ==> OwnsCipher(t, c, u))
    ensures ids == [] ==>
      (Handle(env, t, u, Move(ids, target, order)).1.Done? <==> ValidTarget(t, u, target) && CiphersOf(t, u) == {})
  {
    if ValidTarget(t, u, target) {
      MoveEachKeeps(t, u, order, target);
      ElementsCount(ids);
      ElementsCount(order);
      assert Elements(order) == Selected(t, u, ids);
      if ids != [] {
        assert Selected(t, u, ids) <= Elements(ids);
        SubsetCount(Selected(t, u, ids), Elements(ids));
        if forall c :: c in ids ==> OwnsCipher(t, c, u) {
          assert Selected(t, u, ids) == Elements(ids);
        }
      }
    }
  }

  /**
    Whatever it reports, a bulk move to a valid target puts exactly the named
    ciphers there, all of the user's when none is named, and changes nothing
    else.
   */
  lemma MoveReaches(env: Env, t: Tables, u: UserId, ids: seq<Id>, target: Option<Id>, order: seq<Id>, c: Id)
    requires Inv(t) && Lists(order, Selected(t, u, ids)) && OwnsCipher(t, c, u) && ValidTarget(t, u, target)
    ensures var t' := Handle(env, t, u, Move(ids, target, order)).0;
      && t' == t.(placed := t'.placed)
      && GetFolder(t', c, u) == if ids == [] || c in ids then target else GetFolder(t, c, u)
  {
    MoveEachKeeps(t, u, order, target);
    if c !in Selected(t, u, ids) {
      SameRowsSameFolder(t, MoveEach(t, u, order, target).0, c, u);
    }
  }

  /** The selection is what the request named exactly when it named something or there is nothing to name. */
  lemma SelectionIsTheRequest(t: Tables, u: UserId, ids: seq<Id>)
    ensures Selected(t, u, ids) == CiphersOf(t, u) * Elements(ids) <==> ids != [] || CiphersOf(t, u) == {}
  {
  }

  /** Naming no cipher moves the whole vault, and the request then fails. */
  lemma EmptySelectionMovesAll(env: Env, t: Tables, u: UserId, target: Option<Id>, order: seq<Id>)
    requires Inv(t) && Lists(order, Selected(t, u, [])) && ValidTarget(t, u, target) && CiphersOf(t, u) != {}
    ensures Handle(env, t, u, Move([], target, order)).1 == Fail(NotAllMoved)
    ensures forall c :: OwnsCipher(t, c, u) ==> GetFolder(Handle(env, t, u, Move([], target, order)).0, c, u) == target
  {
    MoveEachKeeps(t, u, order, target);
    var c :| c in CiphersOf(t, u);
    assert c in order;
  }

  // ---------- import ----------

  lemma {:induction false} LastRelation(rs: seq<Relation>, i: nat) returns (k: nat)
    ensures i in RelationMap(rs) <==> exists j :: 0 <= j < |rs| && rs[j].cipher == i
    ensures i in RelationMap(rs) ==> k < |rs| && rs[k].cipher == i && RelationMap(rs)[i] == rs[k].folder
    ensures i in RelationMap(rs) ==> forall j :: k < j < |rs| ==> rs[j].cipher != i
  {
    k := 0;
    if rs != [] {
      var n := |rs| - 1;
      k := LastRelation(rs[..n], i);
      if rs[n].cipher == i {
        k := n;
      } else if exists j :: 0 <= j < |rs| && rs[j].cipher == i {
        var j :| 0 <= j < |rs| && rs[j].cipher == i;
        assert rs[..n][j] == rs[j];
      }
    }
  }

  /** Each folder entry ends as the user's own existing folder or as a fresh one with the entry's name. */
  ghost predicate FolderEntry(t: Tables, t': Tables, u: UserId, f: FolderData, id: Id) {
    if f.id.Some? && OwnsFolder(t.folders, f.id.value, u) then id == f.id.value
    else t.next <= id < t'.next && id in t'.folders && t'.folders[id] == Folder(u, f.name)
  }

  ghost predicate FoldersExtend(t: Tables, t': Tables) {
    && t.next <= t'.next
    && (forall f :: f in t.folders ==> f in t'.folders && t'.folders[f] == t.folders[f])
    && (forall f :: f in t'.folders && f !in t.folders ==> t.next <= f < t'.next)
  }

  lemma {:induction false} ImportFoldersExact(t: Tables, u: UserId, fs: seq<FolderData>)
    requires Inv(t)
    ensures var (t', ids) := ImportFolders(t, u, FoldersOf(t, u), fs);
      && |ids| == |fs| && t' == t.(folders := t'.folders, next := t'.next) && FoldersExtend(t, t')
      && (forall j :: 0 <= j < |fs| ==> FolderEntry(t, t', u, fs[j], ids[j]) && OwnsFolder(t'.folders, ids[j], u))
  {
    if fs != [] {
      var n := |fs| - 1;
      ImportFoldersExact(t, u, fs[..n]);
      var (t1, ids1) := ImportFolders(t, u, FoldersOf(t, u), fs[..n]);
      var (t2, ids2) := ImportFolders(t, u, FoldersOf(t, u), fs);
      ImportFoldersKeeps(t, u, FoldersOf(t, u), fs[..n]);
      assert t1.next !in t1.folders;
      forall j | 0 <= j < |fs| ensures FolderEntry(t, t2, u, fs[j], ids2[j]) && OwnsFolder(t2.folders, ids2[j], u) {
        if j < n {
          assert fs[..n][j] == fs[j];
          assert FolderEntry(t, t1, u, fs[j], ids1[j]);
        }
      }
    }
  }

  predicate SameArchive(t: Tables, t': Tables, v: UserId, c: Id) {
    ((v, c) in t'.archives <==> (v, c) in t.archives) && ((v, c) in t.archives ==> t'.archives[(v, c)] == t.archives[(v, c)])
  }

  /** What the first items of an import leave: one fresh cipher each, and nothing else changed. */
  ghost predicate Imported(env: Env, t: Tables, t': Tables, u: UserId, ds: seq<CipherData>, relations: map<nat, nat>, folders: seq<Id>) {
    && t'.next == t.next + |ds|
    && t'.folders == t.folders && t'.attachments == t.attachments && t'.people == t.people
    && (forall c :: c in t'.ciphers <==> c in t.ciphers || t.next <= c < t'.next)
    && (forall c :: c in t.ciphers ==> t'.ciphers[c] == t.ciphers[c])
    && (forall i :: 0 <= i < |ds| ==> Holds(t'.ciphers[t.next + i], env.now, u, ds[i].atype, None, ds[i]))
    && (forall i :: 0 <= i < |ds| ==> GetFolder(t', t.next + i, u) == FolderFor(relations, folders, i))
    && (forall r: Row :: r.cipher < t.next ==> (r in t'.placed <==> r in t.placed))
    && (forall v: UserId, c: Id :: c < t.next ==> ((v, c) in t'.favorites <==> (v, c) in t.favorites))
    && (forall v: UserId, c: Id :: c < t.next ==> SameArchive(t, t', v, c))
  }

  /** Fails at the first item that is not accepted; never because of a folder. */
  lemma ImportOneExact(env: Env, t: Tables, u: UserId, d: CipherData, folder: Option<Id>)
    requires Inv(t) && (folder.Some? ==> OwnsFolder(t.folders, folder.value, u))
    ensures var (t', o) := ImportOne(env, t, u, d, folder);
      && (o.Done? <==> ItemAccepted(env, d))
      && (o.Done? ==> Inv(t') && Stored(env, Fresh(t), t', u, t.next, d.atype, None, d.(folder := folder)))
  {
    hide Inv, Stored;
    FreshKeeps(t);
    NextIsFree(t);
    UpdateKeeps(env, Fresh(t), u, t.next, NewCipher(env, d, None), d.(folder := folder), false);
  }

  lemma NextIsFree(t: Tables)
    requires Inv(t)
    ensures t.next !in t.ciphers && t.next !in t.folders
    ensures forall r :: r in t.placed ==> r.cipher < t.next && r.folder < t.next
    ensures forall v, c :: (v, c) in t.favorites ==> c < t.next
  {
  }

  /** Folder queries about ciphers older than the last one are not affected by it. */
  lemma StoredAlone(env: Env, t: Tables, t': Tables, u: UserId, c: Id, d: CipherData, x: Id)
    requires Inv(t) && Inv(t') && Stored(env, t, t', u, c, d.atype, None, d) && x != c
    ensures GetFolder(t', x, u) == GetFolder(t, x, u)
  {
    SameRowsSameFolder(t, t', x, u);
  }

  lemma ImportStepFolders(env: Env, t: Tables, t1: Tables, t2: Tables, u: UserId, ds: seq<CipherData>, relations: map<nat, nat>, folders: seq<Id>)
    requires ds != [] && Inv(t1) && Inv(t2)
    requires var n := |ds| - 1;
      && Imported(env, t, t1, u, ds[..n], relations, folders)
      && Stored(env, Fresh(t1), t2, u, t1.next, ds[n].atype, None, ds[n].(folder := FolderFor(relations, folders, n)))
    ensures forall i :: 0 <= i < |ds| ==> GetFolder(t2, t.next + i, u) == FolderFor(relations, folders, i)
  {
    hide Inv, GetFolder, FolderFor, Holds;
    var n := |ds| - 1;
    var d := ds[n].(folder := FolderFor(relations, folders, n));
    FreshKeeps(t1);
    assert NewCipher(env, ds[n], None) == NewCipher(env, d, None);
    forall i | 0 <= i < |ds| ensures GetFolder(t2, t.next + i, u) == FolderFor(relations, folders, i) {
      if i < n {
        StoredAlone(env, Fresh(t1), t2, u, t1.next, d, t.next + i);
        SameTables(t1, t.next + i, u);
      }
    }
  }

  lemma ImportStepArchives(env: Env, t: Tables, t1: Tables, t2: Tables, u: UserId, ds: seq<CipherData>, relations: map<nat, nat>, folders: seq<Id>)
    requires ds != []
    requires var n := |ds| - 1;
      && Imported(env, t, t1, u, ds[..n], relations, folders)
      && Stored(env, Fresh(t1), t2, u, t1.next, ds[n].atype, None, ds[n].(folder := FolderFor(relations, folders, n)))
    ensures forall v: UserId, c: Id :: c < t.next ==> SameArchive(t, t2, v, c)
  {
    hide GetFolder, FolderFor, Holds;
    forall v: UserId, c: Id | c < t.next ensures SameArchive(t, t2, v, c) {
      assert SameArchive(t, t1, v, c);
      assert (v, c) != (u, t1.next);
    }
  }

  lemma ImportStep(env: Env, t: Tables, t1: Tables, t2: Tables, u: UserId, ds: seq<CipherData>, relations: map<nat, nat>, folders: seq<Id>)
    requires ds != [] && Inv(t1) && Inv(t2)
    requires var n := |ds| - 1;
      && Imported(env, t, t1, u, ds[..n], relations, folders)
      && Stored(env, Fresh(t1), t2, u, t1.next, ds[n].atype, None, ds[n].(folder := FolderFor(relations, folders, n)))
    ensures Imported(env, t, t2, u, ds, relations, folders)
  {
    hide Inv, GetFolder, FolderFor;
    var n := |ds| - 1;
    NextIsFree(t1);
    ImportStepFolders(env, t, t1, t2, u, ds, relations, folders);
    ImportStepArchives(env, t, t1, t2, u, ds, relations, folders);
    hide SameArchive;
    forall i | 0 <= i < |ds| ensures Holds(t2.ciphers[t.next + i], env.now, u, ds[i].atype, None, ds[i]) {
      if i < n {
        assert ds[..n][i] == ds[i];
      }
    }
  }

  lemma SameTables(t: Tables, c: Id, u: UserId)
    ensures GetFolder(Fresh(t), c, u) == GetFolder(t, c, u)
  {
  }

  lemma {:induction false} ImportCiphersExact(env: Env, t: Tables, u: UserId, ds: seq<CipherData>, relations: map<nat, nat>, folders: seq<Id>)
    requires Inv(t) && forall j :: 0 <= j < |folders| ==> OwnsFolder(t.folders, folders[j], u)
    ensures var (t', o) := ImportCiphers(env, t, u, ds, relations, folders);
      && (o.Done? <==> forall i :: 0 <= i < |ds| ==> ItemAccepted(env, ds[i]))
      && (o.Done? ==> Inv(t') && Imported(env, t, t', u, ds, relations, folders))
  {
    hide Inv;
    if ds != [] {
      var n := |ds| - 1;
      assert ds == ds[..n] + [ds[n]];
      ImportCiphersExact(env, t, u, ds[..n], relations, folders);
      var (t1, o) := ImportCiphers(env, t, u, ds[..n], relations, folders);
      if o.Done? {
        ImportOneExact(env, t1, u, ds[n], FolderFor(relations, folders, n));
        var (t2, o2) := ImportOne(env, t1, u, ds[n], FolderFor(relations, folders, n));
        if o2.Done? {
          ImportStep(env, t, t1, t2, u, ds, relations, folders);
        }
      }
    }
  }

  /** What is looked at before anything is stored. */
  predicate Readable(env: Env, d: CipherData) {
    (d.notes.Some? ==> |d.notes.value| <= env.maxNote) && d.historyTextual
  }

  /** An import succeeds exactly when every item passes on its own: relations and folders cannot make it fail. */
  lemma ImportSucceeds(env: Env, t: Tables, u: UserId, ds: seq<CipherData>, fs: seq<FolderData>, rs: seq<Relation>)
    requires Inv(t)
    ensures Handle(env, t, u, ImportVault(ds, fs, rs)).1.Done? <==>
      forall i :: 0 <= i < |ds| ==> ItemAccepted(env, ds[i]) && ds[i].historyTextual
    ensures (exists i :: 0 <= i < |ds| && !Readable(env, ds[i])) ==>
      Handle(env, t, u, ImportVault(ds, fs, rs)) == (t, Fail(ValidationErrors))
  {
    ImportFoldersExact(t, u, fs);
    ImportFoldersKeeps(t, u, FoldersOf(t, u), fs);
    var (t', folders) := ImportFolders(t, u, FoldersOf(t, u), fs);
    ImportCiphersExact(env, t', u, ds, RelationMap(rs), folders);
  }

  lemma ImportUnfolded(env: Env, t: Tables, u: UserId, ds: seq<CipherData>, relations: map<nat, nat>, folders: seq<Id>)
    requires ds != []
    ensures var n := |ds| - 1;
      var (t1, o) := ImportCiphers(env, t, u, ds[..n], relations, folders);
      ImportCiphers(env, t, u, ds, relations, folders)
        == if o.Fail? then (t1, o) else ImportOne(env, t1, u, ds[n], FolderFor(relations, folders, n))
  {
    hide ImportOne, FolderFor;
  }

  lemma AcceptedSoFar(env: Env, t: Tables, u: UserId, ds: seq<CipherData>, relations: map<nat, nat>, folders: seq<Id>)
    requires Inv(t) && forall j :: 0 <= j < |folders| ==> OwnsFolder(t.folders, folders[j], u)
    requires forall j :: 0 <= j < |ds| ==> ItemAccepted(env, ds[j])
    ensures var (t1, o) := ImportCiphers(env, t, u, ds, relations, folders); o.Done? && Inv(t1) && t1.folders == t.folders
  {
    hide Inv, Imported, ItemAccepted, ImportCiphers;
    ImportCiphersExact(env, t, u, ds, relations, folders);
    OwnFoldersStay(env, t, ImportCiphers(env, t, u, ds, relations, folders).0, u, ds, relations, folders);
  }

  lemma {:induction false} CiphersStop(env: Env, t: Tables, u: UserId, ds: seq<CipherData>, relations: map<nat, nat>, folders: seq<Id>, i: nat)
    requires Inv(t) && forall j :: 0 <= j < |folders| ==> OwnsFolder(t.folders, folders[j], u)
    requires i < |ds| && !ItemAccepted(env, ds[i]) && forall j :: 0 <= j < i ==> ItemAccepted(env, ds[j])
    ensures var (t', o) := ImportCiphers(env, t, u, ds, relations, folders);
      o.Fail? && t' == Fresh(ImportCiphers(env, t, u, ds[..i], relations, folders).0)
  {
    hide Inv, ItemAccepted, ImportCiphers, ImportOne, FolderFor;
    var n := |ds| - 1;
    ImportUnfolded(env, t, u, ds, relations, folders);
    if i == n {
      AcceptedSoFar(env, t, u, ds[..n], relations, folders);
      var t1 := ImportCiphers(env, t, u, ds[..n], relations, folders).0;
      FolderForOwn(t1, u, relations, folders, n);
      ItemRefused(env, t1, u, ds[n], FolderFor(relations, folders, n));
    } else {
      assert ds[..n][..i] == ds[..i] && ds[..n][i] == ds[i];
      CiphersStop(env, t, u, ds[..n], relations, folders, i);
    }
  }

  lemma FolderForOwn(t: Tables, u: UserId, relations: map<nat, nat>, folders: seq<Id>, i: nat)
    requires forall j :: 0 <= j < |folders| ==> OwnsFolder(t.folders, folders[j], u)
    ensures FolderFor(relations, folders, i).Some? ==> OwnsFolder(t.folders, FolderFor(relations, folders, i).value, u)
  {
  }

  lemma OwnFoldersStay(env: Env, t: Tables, t1: Tables, u: UserId, ds: seq<CipherData>, relations: map<nat, nat>, folders: seq<Id>)
    requires Imported(env, t, t1, u, ds, relations, folders)
    ensures t1.folders == t.folders
  {
  }

  lemma ItemRefused(env: Env, t: Tables, u: UserId, d: CipherData, folder: Option<Id>)
    requires Inv(t) && (folder.Some? ==> OwnsFolder(t.folders, folder.value, u)) && !ItemAccepted(env, d)
    ensures ImportOne(env, t, u, d, folder).0 == Fresh(t) && ImportOne(env, t, u, d, folder).1.Fail?
  {
    ImportOneExact(env, t, u, d, folder);
    FreshKeeps(t);
    NextIsFree(t);
    hide Inv, Stored, UpdateFromData;
    UpdateKeeps(env, Fresh(t), u, t.next, NewCipher(env, d, None), d.(folder := folder), false);
  }

  lemma ReadableItems(env: Env, ds: seq<CipherData>, i: nat)
    requires i <= |ds| && forall j :: 0 <= j < |ds| ==> Readable(env, ds[j])
    ensures Importable(env, ds) && Importable(env, ds[..i])
  {
  }

  /** An import whose item i is the first not accepted stops there: the folders and the items before it are in, and an identifier is used up. */
  lemma ImportStops(env: Env, t: Tables, u: UserId, ds: seq<CipherData>, fs: seq<FolderData>, rs: seq<Relation>, i: nat)
    requires Inv(t) && (forall j :: 0 <= j < |ds| ==> Readable(env, ds[j]))
    requires i < |ds| && !ItemAccepted(env, ds[i]) && forall j :: 0 <= j < i ==> ItemAccepted(env, ds[j])
    ensures var (t', o) := Handle(env, t, u, ImportVault(ds, fs, rs));
      var (t1, o1) := Handle(env, t, u, ImportVault(ds[..i], fs, rs));
      o.Fail? && o1.Done? && t' == t1.(next := t1.next + 1)
  {
    hide Inv, ItemAccepted, ImportFolders, ImportCiphers, Importable, RelationMap, FoldersOf, Readable;
    ReadableItems(env, ds, i);
    StoredFolders(t, u, fs);
    var (t', folders) := ImportFolders(t, u, FoldersOf(t, u), fs);
    CiphersStop(env, t', u, ds, RelationMap(rs), folders, i);
    AcceptedSoFar(env, t', u, ds[..i], RelationMap(rs), folders);
  }

  lemma StoredFolders(t: Tables, u: UserId, fs: seq<FolderData>)
    requires Inv(t)
    ensures var (t', folders) := ImportFolders(t, u, FoldersOf(t, u), fs);
      Inv(t') && forall j :: 0 <= j < |folders| ==> OwnsFolder(t'.folders, folders[j], u)
  {
    ImportFoldersExact(t, u, fs);
    ImportFoldersKeeps(t, u, FoldersOf(t, u), fs);
  }

  /** Relation k speaks of item i and no later one does. */
  ghost predicate LastFor(rs: seq<Relation>, i: nat, k: int) {
    0 <= k < |rs| && rs[k].cipher == i && forall j :: k < j < |rs| ==> rs[j].cipher != i
  }

  /** Where item i belongs according to the relations alone. */
  ghost predicate ImportedWhere(t: Tables, t': Tables, u: UserId, fs: seq<FolderData>, rs: seq<Relation>, i: nat, folder: Option<Id>) {
    && (forall k :: LastFor(rs, i, k) ==>
          if rs[k].folder < |fs| then folder.Some? && FolderEntry(t, t', u, fs[rs[k].folder], folder.value) else folder.None?)
    && ((forall k :: 0 <= k < |rs| ==> rs[k].cipher != i) ==> folder.None?)
  }

  lemma FolderForWhere(t: Tables, t': Tables, u: UserId, fs: seq<FolderData>, rs: seq<Relation>, folders: seq<Id>, i: nat)
    requires |folders| == |fs| && forall j :: 0 <= j < |fs| ==> FolderEntry(t, t', u, fs[j], folders[j])
    ensures ImportedWhere(t, t', u, fs, rs, i, FolderFor(RelationMap(rs), folders, i))
  {
    hide FolderEntry;
    var last := LastRelation(rs, i);
    forall k | LastFor(rs, i, k)
      ensures var folder := FolderFor(RelationMap(rs), folders, i);
        if rs[k].folder < |fs| then folder.Some? && FolderEntry(t, t', u, fs[rs[k].folder], folder.value) else folder.None?
    {
      assert rs[k].cipher == i;
      assert k == last;
    }
  }

  /** Item i of an import is cipher first + i: its row, and the folder it is in. */
  ghost predicate ImportedItem(env: Env, t: Tables, t': Tables, u: UserId, ds: seq<CipherData>, fs: seq<FolderData>, rs: seq<Relation>, first: Id, i: nat) {
    var c := first + i;
    && i < |ds| && c in t'.ciphers && Holds(t'.ciphers[c], env.now, u, ds[i].atype, None, ds[i])
    && ImportedWhere(t, t', u, fs, rs, i, GetFolder(t', c, u))
  }

  /**
    A successful import adds one cipher per item and nothing more. Item i lies
    where the last relation with key i says: in the user's own folder of the
    supplied id, else in a fresh folder of the supplied name.
   */
  lemma ImportExact(env: Env, t: Tables, u: UserId, ds: seq<CipherData>, fs: seq<FolderData>, rs: seq<Relation>) returns (first: Id)
    requires Inv(t) && Handle(env, t, u, ImportVault(ds, fs, rs)).1.Done?
    ensures var t' := Handle(env, t, u, ImportVault(ds, fs, rs)).0;
      && t.next <= first && FoldersExtend(t, t')
      && (forall c :: c in t'.ciphers <==> c in t.ciphers || first <= c < first + |ds|)
      && (forall c :: c in t.ciphers ==> t'.ciphers[c] == t.ciphers[c])
      && (forall r: Row :: r.cipher < first ==> (r in t'.placed <==> r in t.placed))
      && (forall v: UserId, c: Id :: c < first ==> ((v, c) in t'.favorites <==> (v, c) in t.favorites) && SameArchive(t, t', v, c))
      && (forall i :: 0 <= i < |ds| ==> ImportedItem(env, t, t', u, ds, fs, rs, first, i))
  {
    hide Inv, GetFolder, ImportedWhere, FolderFor, RelationMap, ImportFolders, ImportCiphers, Holds;
    ImportFoldersExact(t, u, fs);
    ImportFoldersKeeps(t, u, FoldersOf(t, u), fs);
    var (t1, folders) := ImportFolders(t, u, FoldersOf(t, u), fs);
    ImportCiphersExact(env, t1, u, ds, RelationMap(rs), folders);
    first := t1.next;
    var t' := Import(env, t, u, ds, fs, rs).0;
    forall v: UserId, c: Id | c < first ensures SameArchive(t, t', v, c) {
      assert SameArchive(t1, t', v, c);
    }
    forall i | 0 <= i < |ds| ensures ImportedItem(env, t, t', u, ds, fs, rs, first, i) {
      assert GetFolder(t', first + i, u) == FolderFor(RelationMap(rs), folders, i);
      forall j | 0 <= j < |fs| ensures FolderEntry(t, t', u, fs[j], folders[j]) {
        assert FolderEntry(t, t1, u, fs[j], folders[j]);
      }
      FolderForWhere(t, t', u, fs, rs, folders, i);
    }
  }

  // ---------- key rotation: folders ----------

  /** Entry i speaks of folder f and no later one does. */
  ghost predicate LastFolderEntry(fs: seq<FolderData>, i: int, f: Id) {
    0 <= i < |fs| && fs[i].id == Some(f) && forall j :: i < j < |fs| ==> fs[j].id != Some(f)
  }

  predicate RotationFoldersAccepted(t: Tables, u: UserId, fs: seq<FolderData>) {
    forall i :: 0 <= i < |fs| && fs[i].id.Some? ==> OwnsFolder(t.folders, fs[i].id.value, u)
  }

  /** One folder after the entries: renamed by the last that speaks of it, else unchanged. */
  ghost predicate FolderRotated(old_: Folder, new_: Folder, fs: seq<FolderData>, f: Id) {
    && new_.owner == old_.owner
    && (forall i :: LastFolderEntry(fs, i, f) ==> new_.name == fs[i].name)
    && ((forall i :: 0 <= i < |fs| ==> fs[i].id != Some(f)) ==> new_ == old_)
  }

  ghost predicate FoldersRotated(t: Tables, t': Tables, fs: seq<FolderData>) {
    && t' == t.(folders := t'.folders) && t'.folders.Keys == t.folders.Keys
    && (forall f :: f in t.folders ==> FolderRotated(t.folders[f], t'.folders[f], fs, f))
  }

  lemma FolderRotatedStep(old_: Folder, mid: Folder, new_: Folder, fs: seq<FolderData>, f: Id)
    requires fs != [] && FolderRotated(old_, mid, fs[..|fs| - 1], f)
    requires new_ == if fs[|fs| - 1].id == Some(f) then mid.(name := fs[|fs| - 1].name) else mid
    ensures FolderRotated(old_, new_, fs, f)
  {
    var n := |fs| - 1;
    var front := fs[..n];
    assert forall i :: 0 <= i < n ==> front[i] == fs[i];
    forall i | LastFolderEntry(fs, i, f) ensures new_.name == fs[i].name {
      if i < n {
        assert fs[n].id != Some(f);
        assert LastFolderEntry(front, i, f);
      }
    }
    if forall i :: 0 <= i < |fs| ==> fs[i].id != Some(f) {
      assert fs[n].id != Some(f);
    }
  }

  lemma FoldersAcceptedSnoc(t: Tables, u: UserId, fs: seq<FolderData>)
    requires fs != []
    ensures var n := |fs| - 1;
      RotationFoldersAccepted(t, u, fs) <==>
        (RotationFoldersAccepted(t, u, fs[..n]) && (fs[n].id.Some? ==> OwnsFolder(t.folders, fs[n].id.value, u)))
  {
    var n := |fs| - 1;
    assert forall i :: 0 <= i < n ==> fs[..n][i] == fs[i];
  }

  lemma RotateFoldersStep(t: Tables, t1: Tables, t2: Tables, fs: seq<FolderData>)
    requires fs != [] && FoldersRotated(t, t1, fs[..|fs| - 1])
    requires var f := fs[|fs| - 1];
      if f.id.Some? then f.id.value in t1.folders && t2 == SaveFolder(t1, f.id.value, t1.folders[f.id.value].(name := f.name)) else t2 == t1
    ensures FoldersRotated(t, t2, fs)
  {
    hide FolderRotated;
    assert t2.folders.Keys == t.folders.Keys;
    forall f | f in t.folders ensures FolderRotated(t.folders[f], t2.folders[f], fs, f) {
      FolderRotatedStep(t.folders[f], t1.folders[f], t2.folders[f], fs, f);
    }
  }

  lemma OwnFoldersRotated(t: Tables, t': Tables, fs: seq<FolderData>)
    requires FoldersRotated(t, t', fs)
    ensures forall f, u :: OwnsFolder(t'.folders, f, u) <==> OwnsFolder(t.folders, f, u)
  {
    forall f, u ensures OwnsFolder(t'.folders, f, u) <==> OwnsFolder(t.folders, f, u) {
      assert f in t.folders ==> FolderRotated(t.folders[f], t'.folders[f], fs, f);
    }
  }

  lemma {:induction false} RotateFoldersExact(t: Tables, u: UserId, fs: seq<FolderData>)
    ensures var (t', o) := RotateFolders(t, u, fs);
      && (o.Done? <==> RotationFoldersAccepted(t, u, fs))
      && (o.Done? ==> FoldersRotated(t, t', fs))
  {
    if fs == [] {
      assert forall f :: f in t.folders ==> FolderRotated(t.folders[f], t.folders[f], fs, f);
    } else {
      hide FoldersRotated, RotationFoldersAccepted;
      var n := |fs| - 1;
      RotateFoldersExact(t, u, fs[..n]);
      FoldersAcceptedSnoc(t, u, fs);
      var (t1, o1) := RotateFolders(t, u, fs[..n]);
      if o1.Done? {
        OwnFoldersRotated(t, t1, fs[..n]);
        var (t2, o2) := RotateFolders(t, u, fs);
        if o2.Done? {
          RotateFoldersStep(t, t1, t2, fs);
        }
      }
    }
  }

  /** The renaming of folders stops at the first entry that is not the user's, with the folders before it renamed. */
  lemma {:induction false} FoldersStop(t: Tables, u: UserId, fs: seq<FolderData>, i: nat)
    requires i < |fs| && fs[i].id.Some? && !OwnsFolder(t.folders, fs[i].id.value, u)
    requires forall j :: 0 <= j < i && fs[j].id.Some? ==> OwnsFolder(t.folders, fs[j].id.value, u)
    ensures RotateFolders(t, u, fs) == (RotateFolders(t, u, fs[..i]).0, Fail(InvalidFolder))
  {
    var n := |fs| - 1;
    if i == n {
      RotateFoldersExact(t, u, fs[..n]);
      OwnFoldersRotated(t, RotateFolders(t, u, fs[..n]).0, fs[..n]);
    } else {
      assert fs[..n][..i] == fs[..i] && fs[..n][i] == fs[i];
      FoldersStop(t, u, fs[..n], i);
    }
  }

  // ---------- key rotation: ciphers ----------

  ghost predicate LastCipherEntry(ds: seq<CipherData>, i: int, c: Id) {
    0 <= i < |ds| && ds[i].id == Some(c) && forall j :: i < j < |ds| ==> ds[j].id != Some(c)
  }

  ghost predicate Unmentioned(ds: seq<CipherData>, c: Id) {
    forall i :: 0 <= i < |ds| ==> ds[i].id != Some(c)
  }

  predicate RotationCipherAccepted(env: Env, t: Tables, u: UserId, d: CipherData) {
    d.id.Some? && OwnsCipher(t, d.id.value, u) && Acceptable(env, t, u, d)
  }

  predicate RotationCiphersAccepted(env: Env, t: Tables, u: UserId, ds: seq<CipherData>) {
    forall i :: 0 <= i < |ds| ==> RotationCipherAccepted(env, t, u, ds[i])
  }

  lemma NoneToAccept(env: Env, t: Tables, u: UserId)
    ensures RotationCiphersAccepted(env, t, u, [])
  {
  }

  lemma CiphersAcceptedSnoc(env: Env, t: Tables, u: UserId, ds: seq<CipherData>)
    requires ds != []
    ensures var n := |ds| - 1;
      RotationCiphersAccepted(env, t, u, ds) <==>
        (RotationCiphersAccepted(env, t, u, ds[..n]) && RotationCipherAccepted(env, t, u, ds[n]))
  {
    var n := |ds| - 1;
    assert forall i :: 0 <= i < n ==> ds[..n][i] == ds[i];
  }

  /** One cipher after the entries: everything from the last that speaks of it, else unchanged. */
  ghost predicate CipherRotated(env: Env, t: Tables, t': Tables, u: UserId, ds: seq<CipherData>, c: Id)
    requires c in t.ciphers && c in t'.ciphers
  {
    && t'.ciphers[c].owner == t.ciphers[c].owner && t'.ciphers[c].atype == t.ciphers[c].atype
    && t'.ciphers[c].deletedAt == t.ciphers[c].deletedAt
    && (forall i :: LastCipherEntry(ds, i, c) ==>
          Holds(t'.ciphers[c], env.now, u, t.ciphers[c].atype, t.ciphers[c].deletedAt, ds[i]) && GetFolder(t', c, u) == ds[i].folder)
    && (Unmentioned(ds, c) ==>
          t'.ciphers[c] == t.ciphers[c] && forall f :: Row(c, f) in t'.placed <==> Row(c, f) in t.placed)
  }

  ghost predicate CiphersRotated(env: Env, t: Tables, t': Tables, u: UserId, ds: seq<CipherData>) {
    && t'.ciphers.Keys == t.ciphers.Keys
    && t'.folders == t.folders && t'.next == t.next && t'.attachments == t.attachments && t'.people == t.people
    && (forall v: UserId, c: Id :: v != u ==> ((v, c) in t'.favorites <==> (v, c) in t.favorites) && SameArchive(t, t', v, c))
    && (forall c :: c in t.ciphers ==> CipherRotated(env, t, t', u, ds, c))
  }

  /** The cipher an entry speaks of. */
  lemma CipherRotatedHere(env: Env, t: Tables, t1: Tables, t2: Tables, u: UserId, ds: seq<CipherData>, c: Id)
    requires ds != [] && c in t.ciphers && c in t1.ciphers && ds[|ds| - 1].id == Some(c) && OwnsCipher(t, c, u)
    requires CipherRotated(env, t, t1, u, ds[..|ds| - 1], c)
    requires Stored(env, t1, t2, u, c, t1.ciphers[c].atype, t1.ciphers[c].deletedAt, ds[|ds| - 1])
    ensures CipherRotated(env, t, t2, u, ds, c)
  {
    hide GetFolder;
    var n := |ds| - 1;
    assert forall i :: LastCipherEntry(ds, i, c) ==> i == n;
  }

  lemma LastEntryBefore(ds: seq<CipherData>, c: Id, i: int)
    requires ds != [] && ds[|ds| - 1].id != Some(c)
    ensures LastCipherEntry(ds, i, c) ==> 0 <= i < |ds| - 1 && ds[..|ds| - 1][i] == ds[i] && LastCipherEntry(ds[..|ds| - 1], i, c)
    ensures Unmentioned(ds, c) ==> Unmentioned(ds[..|ds| - 1], c)
  {
  }

  /** Any other cipher. */
  lemma CipherRotatedElsewhere(env: Env, t: Tables, t1: Tables, t2: Tables, u: UserId, ds: seq<CipherData>, c: Id, x: Id)
    requires ds != [] && c in t.ciphers && c in t1.ciphers && x != c && ds[|ds| - 1].id == Some(x)
    requires CipherRotated(env, t, t1, u, ds[..|ds| - 1], c) && RowsSound(t1) && RowsSound(t2)
    requires x in t1.ciphers && Stored(env, t1, t2, u, x, t1.ciphers[x].atype, t1.ciphers[x].deletedAt, ds[|ds| - 1])
    ensures CipherRotated(env, t, t2, u, ds, c)
  {
    assert t2.ciphers[c] == t1.ciphers[c];
    assert forall f :: Row(c, f) in t2.placed <==> Row(c, f) in t1.placed;
    hide GetFolder, RowsSound, Holds, Stored, LastCipherEntry;
    SameRowsSameFolder(t1, t2, c, u);
    LastEntryBefore(ds, c, 0);
    forall i | LastCipherEntry(ds, i, c)
      ensures 0 <= i < |ds| && Holds(t2.ciphers[c], env.now, u, t.ciphers[c].atype, t.ciphers[c].deletedAt, ds[i]) && GetFolder(t2, c, u) == ds[i].folder
    {
      LastEntryBefore(ds, c, i);
    }
  }

  lemma RotateStep(env: Env, t: Tables, t1: Tables, t2: Tables, u: UserId, ds: seq<CipherData>)
    requires ds != [] && RowsSound(t1) && RowsSound(t2)
    requires var n := |ds| - 1;
      && CiphersRotated(env, t, t1, u, ds[..n])
      && ds[n].id.Some? && OwnsCipher(t, ds[n].id.value, u)
      && Stored(env, t1, t2, u, ds[n].id.value, t1.ciphers[ds[n].id.value].atype, t1.ciphers[ds[n].id.value].deletedAt, ds[n])
    ensures CiphersRotated(env, t, t2, u, ds)
  {
    hide RowsSound, GetFolder, CipherRotated;
    var x := ds[|ds| - 1].id.value;
    assert t2.ciphers.Keys == t.ciphers.Keys;
    forall c | c in t.ciphers ensures CipherRotated(env, t, t2, u, ds, c) {
      if c == x {
        CipherRotatedHere(env, t, t1, t2, u, ds, c);
      } else {
        CipherRotatedElsewhere(env, t, t1, t2, u, ds, c, x);
      }
    }
  }

  lemma SoundRows(t: Tables)
    requires Inv(t)
    ensures RowsSound(t)
    ensures forall c :: c in t.ciphers ==> c < t.next
  {
  }

  lemma {:induction false} RotateCiphersExact(env: Env, t: Tables, u: UserId, ds: seq<CipherData>)
    requires Inv(t)
    ensures var (t', o) := RotateCiphers(env, t, u, ds);
      && (o.Done? <==> RotationCiphersAccepted(env, t, u, ds))
      && (o.Done? ==> Inv(t') && CiphersRotated(env, t, t', u, ds))
  {
    hide Inv, CipherRotated, Stored, RotationCiphersAccepted;
    if ds == [] {
      NothingRotated(env, t, u);
      assert RotationCiphersAccepted(env, t, u, []) by { NoneToAccept(env, t, u); }
    } else {
      var n := |ds| - 1;
      var d := ds[n];
      assert ds == ds[..n] + [d];
      RotateCiphersExact(env, t, u, ds[..n]);
      var (t1, o1) := RotateCiphers(env, t, u, ds[..n]);
      CiphersAcceptedSnoc(env, t, u, ds);
      if o1.Done? && d.id.Some? && d.id.value in t.ciphers {
        var c := d.id.value;
        OwnerStays(env, t, t1, u, ds[..n], c);
        if OwnsCipher(t, c, u) {
          SoundRows(t1);
          UpdateKeeps(env, t1, u, c, t1.ciphers[c], d, false);
          var (t2, o2) := UpdateFromData(env, t1, u, c, t1.ciphers[c], d, false);
          if o2.Done? {
            SoundRows(t2);
            RotateStep(env, t, t1, t2, u, ds);
          }
        }
      }
    }
  }

  /** A rotation whose entry i is the first not accepted stops there, with the ciphers before it rotated. */
  lemma {:induction false} RotationStops(env: Env, t: Tables, u: UserId, ds: seq<CipherData>, i: nat)
    requires Inv(t) && i < |ds| && RotationCiphersAccepted(env, t, u, ds[..i]) && !RotationCipherAccepted(env, t, u, ds[i])
    ensures var (t', o) := RotateCiphers(env, t, u, ds);
      && o.Fail? && t' == RotateCiphers(env, t, u, ds[..i]).0
      && (ds[i].id.None? ==> o.error == MissingId)
      && (ds[i].id.Some? && !OwnsCipher(t, ds[i].id.value, u) ==> o.error == NotFound)
  {
    hide Inv, RotationCiphersAccepted, CipherRotated, UpdateFromData, Stored;
    var n := |ds| - 1;
    if i == n {
      var d := ds[n];
      RotateCiphersExact(env, t, u, ds[..n]);
      var (t1, o1) := RotateCiphers(env, t, u, ds[..n]);
      RotateCiphersExact(env, t, u, ds);
      CiphersAcceptedSnoc(env, t, u, ds);
      assert !RotationCipherAccepted(env, t, u, ds[n]);
      assert !RotationCiphersAccepted(env, t, u, ds);
      assert RotateCiphers(env, t, u, ds).1.Fail? && o1.Done? && t1.ciphers.Keys == t.ciphers.Keys;
      if d.id.Some? && d.id.value in t.ciphers {
        OwnerStays(env, t, t1, u, ds[..n], d.id.value);
        if OwnsCipher(t, d.id.value, u) {
          SoundRows(t1);
          UpdateKeeps(env, t1, u, d.id.value, t1.ciphers[d.id.value], d, false);
        }
      }
    } else {
      assert ds[..n][..i] == ds[..i] && ds[..n][i] == ds[i];
      RotationStops(env, t, u, ds[..n], i);
    }
  }

  lemma NothingRotated(env: Env, t: Tables, u: UserId)
    ensures CiphersRotated(env, t, t, u, [])
  {
    forall c | c in t.ciphers ensures CipherRotated(env, t, t, u, [], c) {
    }
  }

  lemma OwnerStays(env: Env, t: Tables, t1: Tables, u: UserId, ds: seq<CipherData>, c: Id)
    requires CiphersRotated(env, t, t1, u, ds) && c in t.ciphers
    ensures c in t1.ciphers && t1.ciphers[c].owner == t.ciphers[c].owner
  {
    assert CipherRotated(env, t, t1, u, ds, c);
  }

  // ---------- key rotation: favorites and archive dates ----------

  predicate Marks(d: CipherData, c: Id) { d.id == Some(c) && d.favorite.Some? }

  predicate Dates(d: CipherData, c: Id) { d.id == Some(c) && d.archived.Some? && d.archived.value.Some? }

  ghost predicate LastMark(ds: seq<CipherData>, i: int, c: Id) {
    0 <= i < |ds| && Marks(ds[i], c) && forall j :: i < j < |ds| ==> !Marks(ds[j], c)
  }

  ghost predicate LastDate(ds: seq<CipherData>, i: int, c: Id) {
    0 <= i < |ds| && Dates(ds[i], c) && forall j :: i < j < |ds| ==> !Dates(ds[j], c)
  }

  /** The user's favorite mark of a cipher comes from the last entry that gives one; with none it stays. */
  ghost predicate MarkFollows(t: Tables, t': Tables, u: UserId, ds: seq<CipherData>, c: Id) {
    && (forall i :: LastMark(ds, i, c) ==> ((u, c) in t'.favorites <==> ds[i].favorite.value))
    && ((forall i :: 0 <= i < |ds| ==> !Marks(ds[i], c)) ==> ((u, c) in t'.favorites <==> (u, c) in t.favorites))
  }

  /** So does his archive date. */
  ghost predicate DateFollows(t: Tables, t': Tables, u: UserId, ds: seq<CipherData>, c: Id) {
    && (forall i :: LastDate(ds, i, c) ==> (u, c) in t'.archives && t'.archives[(u, c)] == ds[i].archived.value.value)
    && ((forall i :: 0 <= i < |ds| ==> !Dates(ds[i], c)) ==> SameArchive(t, t', u, c))
  }

  ghost predicate StatusFollows(t: Tables, t': Tables, u: UserId, ds: seq<CipherData>, c: Id) {
    MarkFollows(t, t', u, ds, c) && DateFollows(t, t', u, ds, c)
  }

  lemma MarkBefore(ds: seq<CipherData>, c: Id, i: int)
    requires ds != [] && !Marks(ds[|ds| - 1], c)
    ensures LastMark(ds, i, c) ==> 0 <= i < |ds| - 1 && ds[..|ds| - 1][i] == ds[i] && LastMark(ds[..|ds| - 1], i, c)
  {
  }

  lemma DateBefore(ds: seq<CipherData>, c: Id, i: int)
    requires ds != [] && !Dates(ds[|ds| - 1], c)
    ensures LastDate(ds, i, c) ==> 0 <= i < |ds| - 1 && ds[..|ds| - 1][i] == ds[i] && LastDate(ds[..|ds| - 1], i, c)
  {
  }

  lemma StoredStatus(env: Env, t: Tables, t': Tables, u: UserId, x: Id, row: Cipher, d: CipherData, c: Id)
    requires Stored(env, t, t', u, x, row.atype, row.deletedAt, d) && d.id == Some(x)
    ensures if Marks(d, c) then (u, c) in t'.favorites <==> d.favorite.value else (u, c) in t'.favorites <==> (u, c) in t.favorites
    ensures if Dates(d, c) then (u, c) in t'.archives && t'.archives[(u, c)] == d.archived.value.value else SameArchive(t, t', u, c)
  {
    hide GetFolder, Holds;
  }

  lemma MarkStep(t: Tables, t1: Tables, t2: Tables, u: UserId, ds: seq<CipherData>, c: Id)
    requires ds != [] && MarkFollows(t, t1, u, ds[..|ds| - 1], c)
    requires var d := ds[|ds| - 1];
      if Marks(d, c) then (u, c) in t2.favorites <==> d.favorite.value else (u, c) in t2.favorites <==> (u, c) in t1.favorites
    ensures MarkFollows(t, t2, u, ds, c)
  {
    if Marks(ds[|ds| - 1], c) {
      assert forall i :: LastMark(ds, i, c) ==> i == |ds| - 1;
    } else {
      forall i | LastMark(ds, i, c) ensures (u, c) in t2.favorites <==> ds[i].favorite.value {
        MarkBefore(ds, c, i);
      }
    }
  }

  lemma DateStep(t: Tables, t1: Tables, t2: Tables, u: UserId, ds: seq<CipherData>, c: Id)
    requires ds != [] && DateFollows(t, t1, u, ds[..|ds| - 1], c)
    requires var d := ds[|ds| - 1];
      if Dates(d, c) then (u, c) in t2.archives && t2.archives[(u, c)] == d.archived.value.value else SameArchive(t1, t2, u, c)
    ensures DateFollows(t, t2, u, ds, c)
  {
    if Dates(ds[|ds| - 1], c) {
      assert forall i :: LastDate(ds, i, c) ==> i == |ds| - 1;
    } else {
      forall i | LastDate(ds, i, c) ensures (u, c) in t2.archives && t2.archives[(u, c)] == ds[i].archived.value.value {
        DateBefore(ds, c, i);
      }
    }
  }

  lemma {:induction false} StatusExact(env: Env, t: Tables, u: UserId, ds: seq<CipherData>, c: Id)
    requires Inv(t) && RotateCiphers(env, t, u, ds).1.Done?
    ensures StatusFollows(t, RotateCiphers(env, t, u, ds).0, u, ds, c)
  {
    if ds != [] {
      hide Inv, Stored, MarkFollows, DateFollows, SameArchive, CiphersRotated, RotationCiphersAccepted, UpdateFromData;
      var n := |ds| - 1;
      StatusExact(env, t, u, ds[..n], c);
      RotateCiphersExact(env, t, u, ds[..n]);
      var t1 := RotateCiphers(env, t, u, ds[..n]).0;
      var x := ds[n].id.value;
      SoundRows(t1);
      UpdateKeeps(env, t1, u, x, t1.ciphers[x], ds[n], false);
      var t2 := RotateCiphers(env, t, u, ds).0;
      StoredStatus(env, t1, t2, u, x, t1.ciphers[x], ds[n], c);
      MarkStep(t, t1, t2, u, ds, c);
      DateStep(t, t1, t2, u, ds, c);
    }
  }

  // ---------- key rotation as a whole ----------

  /** Every identifier an entry supplies. */
  function SuppliedCiphers(k: KeyData): set<Id> {
    set i | 0 <= i < |k.ciphers| && k.ciphers[i].id.Some? :: k.ciphers[i].id.value
  }

  function SuppliedFolders(k: KeyData): set<Id> {
    set i | 0 <= i < |k.folders| && k.folders[i].id.Some? :: k.folders[i].id.value
  }

  /**
    A rotation succeeds exactly when the account checks pass, the supplied
    folder and cipher ids are the user's, all of them and no others, and every
    entry is acceptable on its own.
   */
  lemma RotationSucceeds(env: Env, t: Tables, u: UserId, k: KeyData)
    requires Inv(t)
    ensures Handle(env, t, u, Rotate(k)).1.Done? <==>
      && k.passwordOk && k.kdfUnchanged && k.keypairUnchanged && k.noRecovery
      && SuppliedCiphers(k) == (set c | c in t.ciphers && t.ciphers[c].owner == Some(u))
      && SuppliedFolders(k) == (set f | f in t.folders && t.folders[f].owner == u)
      && RotationCiphersAccepted(env, t, u, k.ciphers) && forall i :: 0 <= i < |k.ciphers| ==> k.ciphers[i].historyTextual
  {
    hide Inv, CiphersRotated, FoldersRotated, RotateCiphers, RotateFolders;
    assert ProvidedFolders(k) == SuppliedFolders(k);
    RotateFoldersExact(t, u, k.folders);
    RotateFoldersKeeps(t, u, k.folders);
    var (t1, o1) := RotateFolders(t, u, k.folders);
    RotateCiphersExact(env, t1, u, k.ciphers);
    if RotationFoldersAccepted(t, u, k.folders) {
      assert FoldersRotated(t, t1, k.folders);
      SameAcceptance(env, t, t1, u, k);
      assert ProvidedFolders(k) <= FoldersOf(t, u);
    } else {
      var i :| 0 <= i < |k.folders| && k.folders[i].id.Some? && !OwnsFolder(t.folders, k.folders[i].id.value, u);
      assert k.folders[i].id.value in ProvidedFolders(k);
    }
    if RotationCiphersAccepted(env, t, u, k.ciphers) {
      assert SuppliedCiphers(k) <= CiphersOf(t, u);
      assert SuppliedCiphers(k) == ProvidedCiphers(k);
    }
  }

  lemma SameAcceptance(env: Env, t: Tables, t1: Tables, u: UserId, k: KeyData)
    requires FoldersRotated(t, t1, k.folders)
    ensures RotationCiphersAccepted(env, t1, u, k.ciphers) <==> RotationCiphersAccepted(env, t, u, k.ciphers)
  {
    OwnFoldersRotated(t, t1, k.folders);
    assert forall i :: 0 <= i < |k.ciphers| ==>
      (RotationCipherAccepted(env, t1, u, k.ciphers[i]) <==> RotationCipherAccepted(env, t, u, k.ciphers[i]));
  }

  lemma RotatedStatus(env: Env, t: Tables, u: UserId, k: KeyData, c: Id)
    requires Inv(t) && RotateKeys(env, t, u, k).1.Done?
    ensures StatusFollows(t, RotateKeys(env, t, u, k).0, u, k.ciphers, c)
  {
    hide Inv, RotateCiphers, RotateFolders, StatusFollows;
    RotateFoldersExact(t, u, k.folders);
    RotateFoldersKeeps(t, u, k.folders);
    var t1 := RotateFolders(t, u, k.folders).0;
    var t' := RotateCiphers(env, t1, u, k.ciphers).0;
    StatusExact(env, t1, u, k.ciphers, c);
    assert t1.favorites == t.favorites && t1.archives == t.archives;
    StatusSameStart(t, t1, t', u, k.ciphers, c);
  }

  lemma StatusSameStart(t: Tables, t1: Tables, t': Tables, u: UserId, ds: seq<CipherData>, c: Id)
    requires t1.favorites == t.favorites && t1.archives == t.archives && StatusFollows(t1, t', u, ds, c)
    ensures StatusFollows(t, t', u, ds, c)
  {
  }

  lemma OthersUnmentioned(env: Env, t: Tables, u: UserId, ds: seq<CipherData>)
    requires RotationCiphersAccepted(env, t, u, ds)
    ensures forall c :: c in t.ciphers && !OwnsCipher(t, c, u) ==> Unmentioned(ds, c)
  {
    assert forall i :: 0 <= i < |ds| ==> RotationCipherAccepted(env, t, u, ds[i]);
  }

  /**
    After a successful rotation the user has exactly the ciphers and folders
    he had, each carrying what the last entry for it supplied; favorites and
    archive dates follow the entries that speak of them; nobody else's row has
    changed.
   */
  lemma RotationExact(env: Env, t: Tables, u: UserId, k: KeyData)
    requires Inv(t) && Handle(env, t, u, Rotate(k)).1.Done?
    ensures var t' := Handle(env, t, u, Rotate(k)).0;
      && t'.ciphers.Keys == t.ciphers.Keys && t'.folders.Keys == t.folders.Keys && t'.next == t.next
      && (forall c, i :: OwnsCipher(t, c, u) && LastCipherEntry(k.ciphers, i, c) ==>
            Holds(t'.ciphers[c], env.now, u, t.ciphers[c].atype, t.ciphers[c].deletedAt, k.ciphers[i]) && GetFolder(t', c, u) == k.ciphers[i].folder)
      && (forall c :: StatusFollows(t, t', u, k.ciphers, c))
      && (forall f, i :: OwnsFolder(t.folders, f, u) && LastFolderEntry(k.folders, i, f) ==>
            t'.folders[f] == Folder(u, k.folders[i].name))
      && (forall c :: c in t.ciphers && !OwnsCipher(t, c, u) ==>
            t'.ciphers[c] == t.ciphers[c] && forall f :: Row(c, f) in t'.placed <==> Row(c, f) in t.placed)
      && (forall f :: f in t.folders && !OwnsFolder(t.folders, f, u) ==> t'.folders[f] == t.folders[f])
      && (forall v: UserId, c: Id :: v != u ==> ((v, c) in t'.favorites <==> (v, c) in t.favorites) && SameArchive(t, t', v, c))
  {
    hide Inv, RotateCiphers, RotateFolders, GetFolder, StatusFollows;
    forall c ensures StatusFollows(t, RotateKeys(env, t, u, k).0, u, k.ciphers, c) {
      RotatedStatus(env, t, u, k, c);
    }
    RotateFoldersExact(t, u, k.folders);
    RotateFoldersKeeps(t, u, k.folders);
    var (t1, o1) := RotateFolders(t, u, k.folders);
    RotateCiphersExact(env, t1, u, k.ciphers);
    SameAcceptance(env, t, t1, u, k);
    var t' := RotateCiphers(env, t1, u, k.ciphers).0;
    assert RotateKeys(env, t, u, k).0 == t';
    assert forall c :: c in t.ciphers ==> CipherRotated(env, t1, t', u, k.ciphers, c);
    assert forall f :: f in t.folders ==> FolderRotated(t.folders[f], t'.folders[f], k.folders, f);
    hide RotationCiphersAccepted, RotationCipherAccepted, Unmentioned, OwnsCipher;
    OthersUnmentioned(env, t, u, k.ciphers);
  }

  /** Every cipher and folder of the user has a last entry, so none is left with old data. */
  lemma RotationMissesNothing(env: Env, t: Tables, u: UserId, k: KeyData)
    requires Inv(t) && Handle(env, t, u, Rotate(k)).1.Done?
    ensures forall c :: OwnsCipher(t, c, u) ==> exists i :: LastCipherEntry(k.ciphers, i, c)
    ensures forall f :: OwnsFolder(t.folders, f, u) ==> exists i :: LastFolderEntry(k.folders, i, f)
  {
    forall c | OwnsCipher(t, c, u) ensures exists i :: LastCipherEntry(k.ciphers, i, c) {
      assert c in ProvidedCiphers(k);
      var i := FindLastCipher(k.ciphers, c);
    }
    forall f | OwnsFolder(t.folders, f, u) ensures exists i :: LastFolderEntry(k.folders, i, f) {
      assert f in ProvidedFolders(k);
      var i := FindLastFolder(k.folders, f);
    }
  }

  lemma {:induction false} FindLastCipher(ds: seq<CipherData>, c: Id) returns (i: int)
    requires exists j :: 0 <= j < |ds| && ds[j].id == Some(c)
    ensures LastCipherEntry(ds, i, c)
  {
    i := |ds| - 1;
    if ds[i].id != Some(c) {
      var j :| 0 <= j < |ds| && ds[j].id == Some(c);
      assert ds[..i][j] == ds[j];
      i := FindLastCipher(ds[..i], c);
    }
  }

  lemma {:induction false} FindLastFolder(fs: seq<FolderData>, f: Id) returns (i: int)
    requires exists j :: 0 <= j < |fs| && fs[j].id == Some(f)
    ensures LastFolderEntry(fs, i, f)
  {
    i := |fs| - 1;
    if fs[i].id != Some(f) {
      var j :| 0 <= j < |fs| && fs[j].id == Some(f);
      assert fs[..i][j] == fs[j];
      i := FindLastFolder(fs[..i], f);
    }
  }
}
