/**
  What deletions leave behind: nothing that names what was deleted, and
  everybody else's vault exactly as it was.
 */
module VaultDeletion {
  import opened Sequences
  import opened Wrappers
  import opened VaultTables
  import opened VaultHandlers
  import opened VaultLaws
  import opened VaultSync

  /** No placement, favorite or attachment names a missing cipher, no placement a missing folder. */
  ghost predicate NoDanglingRows(t: Tables) {
    && (forall r :: r in t.placed ==> r.cipher in t.ciphers && r.folder in t.folders)
    && (forall u, c :: (u, c) in t.favorites ==> c in t.ciphers)
    && (forall a :: a in t.attachments ==> a.cipher in t.ciphers)
  }

  ghost predicate NamesCipher(t: Tables, c: Id) {
    || c in t.ciphers
    || (exists f :: Row(c, f) in t.placed)
    || (exists u :: (u, c) in t.favorites)
    || (exists a :: a in t.attachments && a.cipher == c)
  }

  ghost predicate NamesFolder(t: Tables, f: Id) {
    f in t.folders || exists c :: Row(c, f) in t.placed
  }

  /** The vault tables and the account tables mention a user as an owner. */
  ghost predicate NamesUser(t: Tables, u: UserId) {
    || (exists c :: OwnsCipher(t, c, u))
    || (exists f :: OwnsFolder(t.folders, f, u))
    || (exists c :: (u, c) in t.favorites)
    || u in t.people.users
    || (exists d :: (d, u) in t.people.devices)
    || (exists x :: (x, u) in t.people.twoFactors)
    || (exists x :: (u, x) in t.people.incomplete)
  }

  lemma {:induction false} OnWithout(atts: seq<Attachment>, drop: set<Attachment>, c: Id)
    requires forall a :: a in drop ==> a.cipher != c
    ensures On(Without(atts, drop), {c}) == On(atts, {c})
  {
    if atts != [] {
      var n := |atts| - 1;
      var rest := Without(atts[..n], drop);
      OnWithout(atts[..n], drop, c);
      assert atts[n] !in drop ==> (rest + [atts[n]])[..|rest|] == rest;
      assert rest + [] == rest;
    }
  }

  /** The folder query depends only on the rows of the cipher and on which of their folders are the user's. */
  lemma SameAnswer(t: Tables, t': Tables, c: Id, u: UserId)
    requires RowsSound(t) && RowsSound(t')
    requires forall f :: Row(c, f) in t'.placed ==> Row(c, f) in t.placed
    requires forall f :: Row(c, f) in t.placed && OwnsFolder(t.folders, f, u) ==> Row(c, f) in t'.placed
    requires forall f :: Row(c, f) in t.placed ==> (OwnsFolder(t.folders, f, u) <==> OwnsFolder(t'.folders, f, u))
    ensures GetFolder(t', c, u) == GetFolder(t, c, u)
  {
    FirstFolderRow(t.placed, t.folders, c, u);
    FirstFolderRow(t'.placed, t'.folders, c, u);
    if GetFolder(t, c, u).Some? {
      OnlyFolder(t', c, u, GetFolder(t, c, u).value);
    }
  }

  lemma SameFolderAfterDelete(t: Tables, cs: set<Id>, c: Id, u: UserId)
    requires Inv(t) && c !in cs
    ensures GetFolder(DeleteCiphers(t, cs), c, u) == GetFolder(t, c, u)
  {
    var t' := DeleteCiphers(t, cs);
    DeleteCiphersKeeps(t, cs);
    assert forall f :: Row(c, f) in t'.placed <==> Row(c, f) in t.placed;
    SameAnswer(t, t', c, u);
  }

  /** Deleting some ciphers shows in the rendering of no other. */
  lemma CiphersDeletedAlone(t: Tables, cs: set<Id>, c: Id, u: UserId)
    requires Inv(t) && OwnsCipher(t, c, u) && c !in cs
    ensures var t' := DeleteCiphers(t, cs); OwnsCipher(t', c, u) && t'.ciphers[c] == t.ciphers[c] && DirectView(t', u, c) == DirectView(t, u, c)
  {
    hide Inv, RowsSound, GetFolder, On, Without;
    SameFolderAfterDelete(t, cs, c, u);
    OnWithout(t.attachments, AttachmentsOn(t.attachments, cs), c);
  }

  /** A rendering after some folders have disappeared. */
  function Unfiled(v: View, gone: set<Id>): View {
    if v.folder.Some? && v.folder.value in gone then v.(folder := None) else v
  }

  lemma FolderAfterDelete(t: Tables, fs: set<Id>, c: Id, u: UserId)
    requires Inv(t)
    ensures var f := GetFolder(t, c, u);
      GetFolder(DeleteFolders(t, fs), c, u) == if f.Some? && f.value in fs then None else f
  {
    var t' := DeleteFolders(t, fs);
    DeleteFoldersKeeps(t, fs);
    assert RowsSound(t) && RowsSound(t');
    FirstFolderRow(t.placed, t.folders, c, u);
    FirstFolderRow(t'.placed, t'.folders, c, u);
    hide Inv, GetFolder, RowsSound;
    if GetFolder(t', c, u).Some? {
      OnlyFolder(t, c, u, GetFolder(t', c, u).value);
    }
  }

  /** Deleting some folders shows only in the ciphers that were in them. */
  lemma FoldersDeletedAlone(t: Tables, fs: set<Id>, c: Id, u: UserId)
    requires Inv(t) && OwnsCipher(t, c, u)
    ensures var t' := DeleteFolders(t, fs);
      && OwnsCipher(t', c, u) && t'.ciphers[c] == t.ciphers[c]
      && DirectView(t', u, c) == Unfiled(DirectView(t, u, c), fs)
  {
    hide Inv, GetFolder;
    FolderAfterDelete(t, fs, c, u);
  }

  /** A permanent delete by the owner: no row names the cipher any more, and every other cipher is rendered as before. */
  lemma DeletedCipherIsGone(env: Env, t: Tables, u: UserId, c: Id)
    requires Inv(t) && c in t.ciphers && t.ciphers[c].owner == Some(u)
    ensures var (t', o) := Perform(env, t, u, HardDelete(c));
      && o.Done? && !NamesCipher(t', c) && NoDanglingRows(t') && t'.folders == t.folders
      && (forall x, v :: x != c && OwnsCipher(t, x, v) ==>
            x in t'.ciphers && t'.ciphers[x] == t.ciphers[x] && DirectView(t', v, x) == DirectView(t, v, x))
  {
    DeleteCiphersKeeps(t, {c});
    forall x, v | x != c && OwnsCipher(t, x, v)
      ensures x in DeleteCiphers(t, {c}).ciphers && DirectView(DeleteCiphers(t, {c}), v, x) == DirectView(t, v, x)
    {
      CiphersDeletedAlone(t, {c}, x, v);
    }
  }

  /** A folder delete by its owner: no row names the folder any more, and its ciphers lose the folder and nothing else. */
  lemma DeletedFolderIsGone(env: Env, t: Tables, u: UserId, f: Id)
    requires Inv(t) && f in t.folders && t.folders[f].owner == u
    ensures var (t', o) := Perform(env, t, u, DropFolder(f));
      && o.Done? && !NamesFolder(t', f) && NoDanglingRows(t') && t'.ciphers == t.ciphers
      && (forall x :: x in t.folders && x != f ==> x in t'.folders && t'.folders[x] == t.folders[x])
      && (forall c, v :: OwnsCipher(t, c, v) ==> DirectView(t', v, c) == Unfiled(DirectView(t, v, c), {f}))
  {
    DeleteFoldersKeeps(t, {f});
    forall c, v | OwnsCipher(t, c, v) ensures DirectView(DeleteFolders(t, {f}), v, c) == Unfiled(DirectView(t, v, c), {f}) {
      FoldersDeletedAlone(t, {f}, c, v);
    }
  }

  /** A purge with the right password empties the user's vault and leaves every other vault alone. */
  lemma PurgeEmptiesOneVault(env: Env, t: Tables, u: UserId)
    requires Inv(t)
    ensures Handle(env, t, u, Purge(false)) == (t, Fail(InvalidPassword))
    ensures var (t', o) := Handle(env, t, u, Purge(true));
      && o.Done? && CiphersOf(t', u) == {} && FoldersOf(t', u) == {} && NoDanglingRows(t')
      && (forall c :: c in t.ciphers && t.ciphers[c].owner != Some(u) ==> c in t'.ciphers && t'.ciphers[c] == t.ciphers[c])
      && (forall f :: f in t.folders && t.folders[f].owner != u ==> f in t'.folders && t'.folders[f] == t.folders[f])
      && (forall c, v :: v != u && OwnsCipher(t, c, v) ==> DirectView(t', v, c) == DirectView(t, v, c))
  {
    var t1 := DeleteCiphers(t, CiphersOf(t, u));
    PurgeKeeps(t, u);
    DeleteCiphersKeeps(t, CiphersOf(t, u));
    forall c, v | v != u && OwnsCipher(t, c, v) ensures DirectView(PurgeVault(t, u), v, c) == DirectView(t, v, c) {
      CiphersDeletedAlone(t, CiphersOf(t, u), c, v);
      FirstFolderRow(t1.placed, t1.folders, c, v);
      FoldersDeletedAlone(t1, FoldersOf(t1, u), c, v);
    }
  }

  lemma OtherFavoritesStay(t: Tables, u: UserId, c: Id, v: UserId)
    requires v != u
    ensures var t' := t.(favorites := set x | x in t.favorites && x.0 != u); DirectView(t', v, c) == DirectView(t, v, c)
  {
  }

  /** After an account is deleted no table names its user, and nobody else notices. */
  lemma RemovedUserIsGone(env: Env, t: Tables, admin: UserId, u: UserId)
    requires Inv(t) && u in t.people.users
    ensures var (t', o) := Handle(env, t, admin, DeleteAccount(u));
      && o.Done? && !NamesUser(t', u) && NoDanglingRows(t')
      && (forall c :: c in t.ciphers && t.ciphers[c].owner != Some(u) ==> c in t'.ciphers && t'.ciphers[c] == t.ciphers[c])
      && (forall f :: f in t.folders && t.folders[f].owner != u ==> f in t'.folders && t'.folders[f] == t.folders[f])
      && (forall v :: v != u && v in t.people.users ==> v in t'.people.users && t'.people.users[v] == t.people.users[v])
      && t'.people.invitations == t.people.invitations - {t.people.users[u]}
      && (forall d, v :: v != u ==> ((d, v) in t'.people.devices <==> (d, v) in t.people.devices))
      && (forall x, v :: v != u ==> ((x, v) in t'.people.twoFactors <==> (x, v) in t.people.twoFactors))
      && (forall x, v :: v != u ==> ((v, x) in t'.people.incomplete <==> (v, x) in t.people.incomplete))
  {
    RemoveUserKeeps(t, u);
    assert Inv(RemoveUser(t, u).0);
  }

  lemma RemovedUserIsNotMissed(t: Tables, u: UserId, c: Id, v: UserId)
    requires Inv(t) && v != u && OwnsCipher(t, c, v)
    ensures DirectView(RemoveUser(t, u).0, v, c) == DirectView(t, v, c)
  {
    if u in t.people.users {
      hide Inv, Evolves, DeleteCiphers, DeleteFolders, WithoutPerson;
      var t1 := DeleteCiphers(t, CiphersOf(t, u));
      DeleteCiphersKeeps(t, CiphersOf(t, u));
      CiphersDeletedAlone(t, CiphersOf(t, u), c, v);
      var t2 := t1.(favorites := set x | x in t1.favorites && x.0 != u);
      OtherFavoritesStay(t1, u, c, v);
      FavoritesShrink(t1, t2.favorites);
      FirstFolderRow(t2.placed, t2.folders, c, v);
      FoldersDeletedAlone(t2, FoldersOf(t2, u), c, v);
    }
  }

  lemma FavoritesShrink(t: Tables, favorites: set<(UserId, Id)>)
    requires Inv(t) && favorites <= t.favorites
    ensures Inv(t.(favorites := favorites))
  {
  }

  /** Restoring undoes a soft delete but for the revision date, and takes the cipher out of reach of the trash purge. */
  lemma RestoreUndoesSoftDelete(first: Env, second: Env, t: Tables, u: UserId, c: Id, before: Time)
    requires OwnsCipher(t, c, u) && t.ciphers[c].deletedAt.None?
    ensures var (t1, o1) := Perform(first, t, u, SoftDelete(c));
      var (t2, o2) := Perform(second, t1, u, Restore(c));
      && o1.Done? && o2.Done?
      && (c in Trashed(t1, before) <==> first.now < before) && c !in Trashed(t2, before)
      && t2 == SaveCipher(t, c, t.ciphers[c].(updatedAt := second.now))
  {
    var t1 := Perform(first, t, u, SoftDelete(c)).0;
    assert t1.ciphers[c := t.ciphers[c].(updatedAt := second.now)] == t.ciphers[c := t.ciphers[c].(updatedAt := second.now)];
  }

  /** The trash purge takes exactly the ciphers deleted before the date, whoever's they are, and shows in no other. */
  lemma TrashPurgeExact(env: Env, t: Tables, u: UserId, before: Time)
    requires Inv(t)
    ensures var (t', o) := Handle(env, t, u, PurgeTrash(before));
      && o.Done? && NoDanglingRows(t') && t'.folders == t.folders
      && (forall c :: c in t'.ciphers <==> c in t.ciphers && !(t.ciphers[c].deletedAt.Some? && t.ciphers[c].deletedAt.value < before))
      && (forall c, v :: OwnsCipher(t, c, v) && c in t'.ciphers ==>
            t'.ciphers[c] == t.ciphers[c] && DirectView(t', v, c) == DirectView(t, v, c))
  {
    DeleteCiphersKeeps(t, Trashed(t, before));
    forall c, v | OwnsCipher(t, c, v) && c !in Trashed(t, before)
      ensures DirectView(DeleteCiphers(t, Trashed(t, before)), v, c) == DirectView(t, v, c)
    {
      CiphersDeletedAlone(t, Trashed(t, before), c, v);
    }
  }

  /** At no moment of any run does a row name a missing cipher or folder. */
  lemma NeverDangling(states: seq<Tables>, calls: seq<Call>, i: nat)
    requires Execution(states, calls) && i < |states|
    ensures NoDanglingRows(states[i])
  {
    ReachableInvariant(states, calls, i);
  }
}
