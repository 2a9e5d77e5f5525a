/**
  What single requests do, in terms of the rows and the request alone: who may
  make them, what they change, what a refusal says, and how far a list of them
  gets.
 */
module VaultRequests {
  import opened Wrappers
  import opened VaultTables
  import opened VaultHandlers
  import opened VaultLaws

  // ---------- requests only the owner may make ----------

  predicate OwnersAction(a: Action) {
    a.SoftDelete? || a.Restore? || a.HardDelete? || a.Archive? || a.TakeOutOfArchive?
  }

  /** Deleting, restoring and archiving succeed exactly for the owner of the cipher; a refusal does nothing. */
  lemma OwnersOnly(env: Env, t: Tables, u: UserId, a: Action)
    requires OwnersAction(a)
    ensures var (t', o) := Perform(env, t, u, a);
      && (o.Done? <==> a.cipher in t.ciphers && t.ciphers[a.cipher].owner == Some(u))
      && (o.Fail? ==> t' == t && o.error == if a.cipher in t.ciphers then NotAccessible else NotFound)
  {
  }

  /** What they change: one row, or one archive date, and nothing else. */
  lemma OwnersActionsExact(env: Env, t: Tables, u: UserId, c: Id)
    requires c in t.ciphers && t.ciphers[c].owner == Some(u)
    ensures Perform(env, t, u, SoftDelete(c)).0
      == t.(ciphers := t.ciphers[c := t.ciphers[c].(deletedAt := Some(env.now), updatedAt := env.now)])
    ensures Perform(env, t, u, Restore(c)).0
      == t.(ciphers := t.ciphers[c := t.ciphers[c].(deletedAt := None, updatedAt := env.now)])
    ensures Perform(env, t, u, Archive(c)).0 == t.(archives := t.archives[(u, c) := env.now])
    ensures Perform(env, t, u, TakeOutOfArchive(c)).0 == t.(archives := t.archives - {(u, c)})
  {
  }

  /** Taking a cipher out of the archive undoes putting it there. */
  lemma UnarchiveUndoesArchive(env: Env, later: Env, t: Tables, u: UserId, c: Id)
    requires c in t.ciphers && t.ciphers[c].owner == Some(u) && (u, c) !in t.archives
    ensures var (t1, o1) := Perform(env, t, u, Archive(c));
      o1.Done? && t1 != t && Perform(later, t1, u, TakeOutOfArchive(c)) == (t, Done)
  {
    var t1 := Perform(env, t, u, Archive(c)).0;
    assert (u, c) in t1.archives;
    assert t1.archives - {(u, c)} == t.archives;
  }

  // ---------- sharing an existing cipher ----------

  /** Sharing with no collection is an edit whose staleness check a bulk request leaves out. */
  lemma ShareExact(env: Env, t: Tables, u: UserId, c: Id, d: CipherData, collections: bool, quiet: bool)
    requires Inv(t)
    ensures var (t', o) := Perform(env, t, u, Share(c, d, collections, quiet));
      && (o.Done? <==> OwnsCipher(t, c, u) && !collections && (quiet || !Stale(t.ciphers[c], d)) && Acceptable(env, t, u, d))
      && (o.Done? ==> Inv(t') && Stored(env, t, t', u, c, t.ciphers[c].atype, t.ciphers[c].deletedAt, d))
      && (o.Fail? ==> t' == t)
      && (OwnsCipher(t, c, u) && (collections || d.organization) ==> o == Fail(NoOrganizations))
      && (!OwnsCipher(t, c, u) ==> o == Fail(if c in t.ciphers then NotAccessible else NotFound))
  {
    hide Stored;
    if OwnsCipher(t, c, u) {
      UpdateKeeps(env, t, u, c, t.ciphers[c], d, !quiet);
    }
  }

  // ---------- what a refused edit says ----------

  /** The checks of an edit in order, with what each answers when it fails. */
  function Checks(env: Env, t: Tables, u: UserId, c: Id, d: CipherData): seq<(bool, Error)> {
    [(c in t.ciphers, NotFound),
     (c in t.ciphers && t.ciphers[c].owner == Some(u), NotAccessible),
     (c in t.ciphers && !Stale(t.ciphers[c], d), OutOfDate),
     (!d.organization, NoOrganizations),
     (d.notes.Some? ==> |d.notes.value| <= env.maxNote, NoteTooLong),
     (d.folder.Some? ==> d.folder.value in t.folders && t.folders[d.folder.value].owner == u, InvalidFolder),
     (1 <= d.atype <= 5, InvalidType),
     (d.atype in d.typeData, DataMissing),
     (d.objects, Malformed)]
  }

  /** Check i fails and those before it do not. */
  predicate FirstFails(checks: seq<(bool, Error)>, i: nat) {
    i < |checks| && !checks[i].0 && forall j :: 0 <= j < i ==> checks[j].0
  }

  /** A refused edit answers for the first check that fails. */
  lemma FirstFailureNamed(env: Env, t: Tables, u: UserId, c: Id, d: CipherData, i: nat)
    requires Inv(t) && FirstFails(Checks(env, t, u, c, d), i)
    ensures Perform(env, t, u, Edit(c, d)) == (t, Fail(Checks(env, t, u, c, d)[i].1))
  {
    EditExact(env, t, u, c, d);
    var checks := Checks(env, t, u, c, d);
    assert i > 0 ==> checks[0].0;
    assert i > 1 ==> checks[1].0;
    assert i > 2 ==> checks[2].0;
    assert i > 3 ==> checks[3].0;
    assert i > 4 ==> checks[4].0;
    assert i > 5 ==> checks[5].0;
    assert i > 6 ==> checks[6].0;
    assert i > 7 ==> checks[7].0;
  }

  /** The checks on the cipher a request is about. */
  function CipherChecks(t: Tables, u: UserId, c: Id): (r: seq<(bool, Error)>)
    ensures |r| == 2
  {
    [(c in t.ciphers, NotFound), (c in t.ciphers && t.ciphers[c].owner == Some(u), NotAccessible)]
  }

  /** So does a refused partial update. */
  lemma PartialRefusalNamed(env: Env, t: Tables, u: UserId, c: Id, folder: Option<Id>, favorite: bool, i: nat)
    requires var checks := CipherChecks(t, u, c) + [(folder.Some? ==> OwnsFolder(t.folders, folder.value, u), InvalidFolder)];
      FirstFails(checks, i)
    ensures var checks := CipherChecks(t, u, c) + [(folder.Some? ==> OwnsFolder(t.folders, folder.value, u), InvalidFolder)];
      Perform(env, t, u, Partial(c, folder, favorite)) == (t, Fail(checks[i].1))
  {
    var checks := CipherChecks(t, u, c) + [(folder.Some? ==> OwnsFolder(t.folders, folder.value, u), InvalidFolder)];
    assert i > 0 ==> checks[0].0;
    assert i > 1 ==> checks[1].0;
  }

  // ---------- folders ----------

  /** A folder is made under an unused identifier, renamed or dropped by its owner only. */
  lemma FolderActionsExact(env: Env, t: Tables, u: UserId, f: Id, name: string)
    requires Inv(t)
    ensures t.next !in t.folders
    ensures Perform(env, t, u, NewFolder(name))
      == (t.(folders := t.folders[t.next := Folder(u, name)], next := t.next + 1), Done)
    ensures Perform(env, t, u, RenameFolder(f, name))
      == if f in t.folders && t.folders[f].owner == u then (t.(folders := t.folders[f := Folder(u, name)]), Done) else (t, Fail(InvalidFolder))
    ensures !(f in t.folders && t.folders[f].owner == u) ==> Perform(env, t, u, DropFolder(f)) == (t, Fail(InvalidFolder))
  {
  }

  /** Nobody is deleted who is not there, and nothing is moved to somebody else's folder. */
  lemma NothingToActOn(env: Env, t: Tables, u: UserId, victim: UserId, ids: seq<Id>, target: Id, order: seq<Id>)
    ensures victim !in t.people.users ==> Handle(env, t, u, DeleteAccount(victim)) == (t, Fail(NotFound))
    ensures !(target in t.folders && t.folders[target].owner == u) ==>
      Handle(env, t, u, Move(ids, Some(target), order)) == (t, Fail(InvalidFolder))
  {
  }

  // ---------- key rotation refused ----------

  predicate SuppliesCipher(k: KeyData, c: Id) {
    exists i :: 0 <= i < |k.ciphers| && !k.ciphers[i].organization && k.ciphers[i].id == Some(c)
  }

  predicate SuppliesFolder(k: KeyData, f: Id) {
    exists i :: 0 <= i < |k.folders| && k.folders[i].id == Some(f)
  }

  /** What is looked at before anything is rotated, with what each check answers. */
  function RotationChecks(env: Env, t: Tables, u: UserId, k: KeyData): seq<(bool, Error)> {
    [(k.passwordOk, InvalidPassword),
     (forall i :: 0 <= i < |k.ciphers| ==>
        (k.ciphers[i].notes.Some? ==> |k.ciphers[i].notes.value| <= env.maxNote) && k.ciphers[i].historyTextual, ValidationErrors),
     (k.kdfUnchanged, KdfChanged),
     (k.keypairUnchanged, KeypairChanged),
     (forall c :: c in t.ciphers && t.ciphers[c].owner == Some(u) ==> SuppliesCipher(k, c), CiphersMissing),
     (forall f :: f in t.folders && t.folders[f].owner == u ==> SuppliesFolder(k, f), FoldersMissing),
     (k.noRecovery, NoOrganizations)]
  }

  lemma SuppliedEnough(env: Env, t: Tables, u: UserId, k: KeyData)
    ensures ProvidedCiphers(k) >= CiphersOf(t, u) <==> RotationChecks(env, t, u, k)[4].0
    ensures ProvidedFolders(k) >= FoldersOf(t, u) <==> RotationChecks(env, t, u, k)[5].0
  {
    forall c ensures c in ProvidedCiphers(k) <==> SuppliesCipher(k, c) {
      if SuppliesCipher(k, c) {
        var i :| 0 <= i < |k.ciphers| && !k.ciphers[i].organization && k.ciphers[i].id == Some(c);
        assert k.ciphers[i].id.value in ProvidedCiphers(k);
      }
    }
    forall f ensures f in ProvidedFolders(k) <==> SuppliesFolder(k, f) {
      if SuppliesFolder(k, f) {
        var i :| 0 <= i < |k.folders| && k.folders[i].id == Some(f);
        assert k.folders[i].id.value in ProvidedFolders(k);
      }
    }
    hide SuppliesCipher, SuppliesFolder, ProvidedCiphers, ProvidedFolders;
    assert forall c :: c in CiphersOf(t, u) <==> c in t.ciphers && t.ciphers[c].owner == Some(u);
    assert forall f :: f in FoldersOf(t, u) <==> f in t.folders && t.folders[f].owner == u;
  }

  /** A rotation refused before it begins answers for the first check that fails, and does nothing. */
  lemma RotationRefusalNamed(env: Env, t: Tables, u: UserId, k: KeyData, i: nat)
    requires FirstFails(RotationChecks(env, t, u, k), i)
    ensures Handle(env, t, u, Rotate(k)) == (t, Fail(RotationChecks(env, t, u, k)[i].1))
  {
    SuppliedEnough(env, t, u, k);
    var checks := RotationChecks(env, t, u, k);
    hide ProvidedCiphers, ProvidedFolders, CiphersOf, FoldersOf, SuppliesCipher, SuppliesFolder;
    assert i > 0 ==> checks[0].0;
    assert i > 1 ==> checks[1].0;
    assert i > 2 ==> checks[2].0;
    assert i > 3 ==> checks[3].0;
    assert i > 4 ==> checks[4].0;
    assert i > 5 ==> checks[5].0;
  }

  // ---------- lists of actions ----------

  /** The tables between the actions of a list, up to where it stopped. */
  ghost predicate Steps(env: Env, t: Tables, u: UserId, actions: seq<Action>, states: seq<Tables>) {
    && 1 <= |states| <= |actions| + 1 && states[0] == t
    && forall i :: 0 <= i < |states| - 1 ==> Perform(env, states[i], u, actions[i]) == (states[i + 1], Done)
  }

  lemma OneMore(env: Env, t: Tables, u: UserId, actions: seq<Action>, states: seq<Tables>, next: Tables)
    requires actions != [] && Steps(env, t, u, actions[..|actions| - 1], states) && |states| == |actions|
    requires Perform(env, states[|states| - 1], u, actions[|actions| - 1]) == (next, Done)
    ensures Steps(env, t, u, actions, states + [next])
  {
    hide Perform;
  }

  lemma SameSteps(env: Env, t: Tables, u: UserId, actions: seq<Action>, states: seq<Tables>)
    requires actions != [] && Steps(env, t, u, actions[..|actions| - 1], states)
    ensures Steps(env, t, u, actions, states)
  {
    hide Perform;
  }

  /** A list is done action by action, each on what the one before left, up to the first that fails, whose outcome is the answer. */
  lemma {:induction false} EachExact(env: Env, t: Tables, u: UserId, actions: seq<Action>) returns (states: seq<Tables>)
    ensures Steps(env, t, u, actions, states)
    ensures var n := |states| - 1;
      && (n == |actions| ==> Handle(env, t, u, Each(actions)) == (states[n], Done))
      && (n < |actions| ==> Handle(env, t, u, Each(actions)) == Perform(env, states[n], u, actions[n])
                            && Handle(env, t, u, Each(actions)).1.Fail?)
  {
    states := [t];
    if actions != [] {
      hide Perform;
      var n := |actions| - 1;
      states := EachExact(env, t, u, actions[..n]);
      SameSteps(env, t, u, actions, states);
      var (t1, o) := PerformEach(env, t, u, actions[..n]);
      if o.Done? && Perform(env, t1, u, actions[n]).1.Done? {
        OneMore(env, t, u, actions, states, Perform(env, t1, u, actions[n]).0);
        states := states + [Perform(env, t1, u, actions[n]).0];
      }
    }
  }
}
