/**
  The tables as mutable state and every vault request as a method on them,
  statement by statement, each proved to do what the corresponding function on
  values says; the laws about runs of those functions are thereby laws about
  sequences of these calls.
 */
module VaultStore {
  import opened Sequences
  import opened Wrappers
  import T = VaultTables
  import H = VaultHandlers
  import L = VaultLaws
  import S = VaultSync

  class Store {
    var ciphers: map<T.Id, T.Cipher>
    var folders: map<T.Id, T.Folder>
    var placed: seq<T.Row>
    var favorites: set<(T.UserId, T.Id)>
    var archives: map<(T.UserId, T.Id), T.Time>
    var attachments: seq<T.Attachment>
    var people: T.People
    var next: T.Id

    function Snapshot(): T.Tables
      reads this
    {
      T.Tables(ciphers, folders, placed, favorites, archives, attachments, people, next)
    }

    constructor (accounts: T.People)
      ensures Snapshot() == L.Empty(accounts)
    {
      ciphers, folders, placed, favorites, archives, attachments := map[], map[], [], {}, map[], [];
      people, next := accounts, 0;
    }

    method NewId() returns (id: T.Id)
      modifies this
      ensures id == old(next) && Snapshot() == H.Fresh(old(Snapshot()))
    {
      id := next;
      next := next + 1;
    }

    // ---------- placements and favorites ----------

    method SavePlacement(c: T.Id, f: T.Id)
      modifies this
      ensures Snapshot() == T.Place(old(Snapshot()), c, f)
    {
      placed := Without(placed, {T.Row(c, f)});
      placed := placed + [T.Row(c, f)];
    }

    method DeletePlacement(c: T.Id, f: T.Id)
      modifies this
      ensures Snapshot() == T.Unplace(old(Snapshot()), c, f)
    {
      placed := Without(placed, {T.Row(c, f)});
    }

    method MoveToFolder(c: T.Id, target: Option<T.Id>, u: T.UserId) returns (ok: bool)
      modifies this
      ensures (Snapshot(), ok) == T.MoveToFolder(old(Snapshot()), c, target, u)
    {
      var current := T.GetFolder(Snapshot(), c, u);
      ok := true;
      match (current, target)
      case (None, None) =>
      case (None, Some(new_)) => SavePlacement(c, new_);
      case (Some(old_), None) =>
        if T.Row(c, old_) in placed {
          DeletePlacement(c, old_);
        } else {
          ok := false;
        }
      case (Some(old_), Some(new_)) =>
        if old_ != new_ {
          if T.Row(c, old_) in placed {
            DeletePlacement(c, old_);
          } else {
            WithoutNone(placed, {T.Row(c, old_)});
          }
          SavePlacement(c, new_);
        }
    }

    method SetFavorite(c: T.Id, u: T.UserId, status: Option<bool>)
      modifies this
      ensures Snapshot() == T.SetFavorite(old(Snapshot()), c, u, status)
    {
      if status.Some? {
        var was := (u, c) in favorites;
        if !was && status.value {
          favorites := favorites + {(u, c)};
        } else if was && !status.value {
          favorites := favorites - {(u, c)};
        }
      }
    }

    // ---------- create and update ----------

    /** `row` is the caller's copy of the cipher after the call; it matches the table when the update got as far as saving. */
    method UpdateFromData(env: H.Env, u: T.UserId, c: T.Id, current: T.Cipher, d: H.CipherData, checkStale: bool)
      returns (row: T.Cipher, o: H.Outcome)
      modifies this
      ensures (Snapshot(), o) == H.UpdateFromData(env, old(Snapshot()), u, c, current, d, checkStale)
      ensures o.Done? ==> row == H.Updated(env, u, current, d) && ciphers == old(ciphers)[c := row]
    {
      hide T.MoveToFolder, H.PayloadOf;
      row := current;
      if checkStale && d.lastKnown.Some? && d.lastKnown.value.Some? && row.updatedAt - d.lastKnown.value.value >= 2000 {
        return row, H.Fail(H.OutOfDate);
      }
      if d.organization {
        return row, H.Fail(H.NoOrganizations);
      }
      if d.notes.Some? && |d.notes.value| > env.maxNote {
        return row, H.Fail(H.NoteTooLong);
      }
      row := row.(owner := Some(u));
      if d.folder.Some? && !T.OwnsFolder(folders, d.folder.value, u) {
        return row, H.Fail(H.InvalidFolder);
      }
      if !(1 <= d.atype <= 5) {
        return row, H.Fail(H.InvalidType);
      }
      if d.atype !in d.typeData {
        return row, H.Fail(H.DataMissing);
      }
      if !d.objects {
        return row, H.Fail(H.Malformed);
      }
      row := row.(payload := H.PayloadOf(d));
      row := row.(updatedAt := env.now);
      ciphers := ciphers[c := row];
      T.MoveTouchesRows(Snapshot(), c, d.folder, u);
      var moved := MoveToFolder(c, d.folder, u);
      if !moved {
        return row, H.Fail(H.MoveFailed);
      }
      SetFavorite(c, u, d.favorite);
      if d.archived.Some? && d.archived.value.Some? {
        archives := archives[(u, c) := d.archived.value.value];
      }
      return row, H.Done;
    }

    method CreateCipher(env: H.Env, u: T.UserId, d: H.CipherData) returns (o: H.Outcome)
      modifies this
      ensures (Snapshot(), o) == H.CreateCipher(env, old(Snapshot()), u, d)
    {
      var cipher := H.NewCipher(env, d, None);
      var c := NewId();
      cipher, o := UpdateFromData(env, u, c, cipher, d.(lastKnown := None), true);
    }

    method EditCipher(env: H.Env, u: T.UserId, c: T.Id, d: H.CipherData) returns (o: H.Outcome)
      modifies this
      ensures (Snapshot(), o) == H.EditCipher(env, old(Snapshot()), u, c, d)
    {
      if c !in ciphers {
        return H.Fail(H.NotFound);
      }
      if !T.OwnsCipher(Snapshot(), c, u) {
        return H.Fail(H.NotAccessible);
      }
      var cipher;
      cipher, o := UpdateFromData(env, u, c, ciphers[c], d, true);
    }

    method ShareCipher(env: H.Env, u: T.UserId, c: T.Id, d: H.CipherData, collections: bool, checkStale: bool) returns (o: H.Outcome)
      modifies this
      ensures (Snapshot(), o) == H.ShareCipher(env, old(Snapshot()), u, c, d, collections, checkStale)
      ensures attachments == old(attachments)
    {
      if c !in ciphers {
        return H.Fail(H.NotFound);
      }
      if !T.OwnsCipher(Snapshot(), c, u) {
        return H.Fail(H.NotAccessible);
      }
      if d.organization || collections {
        return H.Fail(H.NoOrganizations);
      }
      hide H.UpdateFromData;
      H.UpdateLeavesAttachments(env, Snapshot(), u, c, ciphers[c], d, checkStale);
      var cipher;
      cipher, o := UpdateFromData(env, u, c, ciphers[c], d, checkStale);
    }

    method CreateShared(env: H.Env, u: T.UserId, d: H.CipherData, collections: bool) returns (o: H.Outcome)
      requires T.DistinctIds(attachments)
      modifies this
      ensures (Snapshot(), o) == H.CreateShared(env, old(Snapshot()), u, d, collections)
    {
      var c := NewId();
      ciphers := ciphers[c := H.NewCipher(env, d, Some(u))];
      o := ShareCipher(env, u, c, d.(lastKnown := None), collections, true);
      if o.Fail? && o != H.Fail(H.Malformed) {
        DeleteCipher(c);
      }
    }

    method PartialUpdate(u: T.UserId, c: T.Id, folder: Option<T.Id>, favorite: bool) returns (o: H.Outcome)
      modifies this
      ensures (Snapshot(), o) == H.PartialUpdate(old(Snapshot()), u, c, folder, favorite)
    {
      if c !in ciphers {
        return H.Fail(H.NotFound);
      }
      if !T.OwnsCipher(Snapshot(), c, u) {
        return H.Fail(H.NotAccessible);
      }
      if folder.Some? && !T.OwnsFolder(folders, folder.value, u) {
        return H.Fail(H.InvalidFolder);
      }
      var moved := MoveToFolder(c, folder, u);
      if !moved {
        return H.Fail(H.MoveFailed);
      }
      SetFavorite(c, u, Some(favorite));
      return H.Done;
    }

    // ---------- attachments ----------

    method SaveAttachment(a: T.Attachment)
      modifies this
      ensures Snapshot() == T.SaveAttachment(old(Snapshot()), a)
    {
      attachments := Without(attachments, T.WithId(attachments, a.id));
      attachments := attachments + [a];
    }

    method DeleteAttachment(id: T.Id)
      modifies this
      ensures Snapshot() == T.DeleteAttachment(old(Snapshot()), id)
    {
      attachments := Without(attachments, T.WithId(attachments, id));
    }

    method DeclareAttachment(u: T.UserId, c: T.Id, fileName: string, key: string, size: int) returns (o: H.Outcome)
      modifies this
      ensures (Snapshot(), o) == H.DeclareAttachment(old(Snapshot()), u, c, fileName, key, size)
    {
      if c !in ciphers {
        return H.Fail(H.NotFound);
      }
      if !T.OwnsCipher(Snapshot(), c, u) {
        return H.Fail(H.NotAccessible);
      }
      if H.Checked(size).None? {
        return H.Fail(H.SizeOverflow);
      }
      if size < 0 {
        return H.Fail(H.NegativeSize);
      }
      var id := NewId();
      SaveAttachment(T.Attachment(id, c, fileName, size, Some(key)));
      return H.Done;
    }

    method StoreUpload(env: H.Env, u: T.UserId, announced: Option<T.Attachment>, c: T.Id,
                       fileName: Option<string>, key: Option<string>, size: nat) returns (o: H.Outcome)
      modifies this
      ensures (Snapshot(), o) == H.StoreUpload(env, old(Snapshot()), u, announced, c, fileName, key, size)
    {
      if size > T.I64_MAX {
        return H.Fail(H.SizeOverflow);
      }
      if c !in ciphers {
        return H.Fail(H.NotFound);
      }
      if !T.OwnsCipher(Snapshot(), c, u) {
        return H.Fail(H.NotAccessible);
      }
      var adjust := if announced.Some? then announced.value.size else 0;
      if env.quotaKb.Some? {
        if env.quotaKb.value == 0 {
          return H.Fail(H.AttachmentsDisabled);
        }
        var used := H.SizeByUser(env, Snapshot(), u);
        if used.None? {
          return H.Fail(H.SumOverflow);
        }
        var left := H.Left(env.quotaKb.value, used.value, adjust);
        if left.None? {
          return H.Fail(H.SizeOverflow);
        }
        if left.value <= 0 {
          return H.Fail(H.LimitReached);
        }
        if size > left.value {
          return H.Fail(H.LimitExceeded);
        }
      }
      if announced.Some? {
        var a := announced.value;
        var max, min := H.Checked(a.size + H.LEEWAY), H.Checked(a.size - H.LEEWAY);
        if max.None? || min.None? {
          return H.Fail(H.InvalidBounds);
        }
        if min.value <= size <= max.value {
          if size != a.size {
            SaveAttachment(a.(size := size));
          }
        } else {
          DeleteAttachment(a.id);
          return H.Fail(H.SizeMismatch);
        }
      } else {
        if fileName.None? {
          return H.Fail(H.NoFileName);
        }
        if key.None? {
          return H.Fail(H.NoKey);
        }
        var id := NewId();
        SaveAttachment(T.Attachment(id, c, fileName.value, size, key));
      }
      return H.Done;
    }

    method UploadAnnounced(env: H.Env, u: T.UserId, c: T.Id, id: T.Id, size: nat) returns (o: H.Outcome)
      modifies this
      ensures (Snapshot(), o) == H.UploadAnnounced(env, old(Snapshot()), u, c, id, size)
    {
      var announced := H.FindAttachment(attachments, id);
      if announced.None? {
        return H.Fail(H.NotFound);
      }
      if announced.value.cipher != c {
        return H.Fail(H.WrongCipher);
      }
      o := StoreUpload(env, u, announced, c, None, None, size);
    }

    method DropAttachment(u: T.UserId, c: T.Id, id: T.Id) returns (o: H.Outcome)
      modifies this
      ensures (Snapshot(), o) == H.DropAttachment(old(Snapshot()), u, c, id)
    {
      var found := H.FindAttachment(attachments, id);
      if found.None? {
        return H.Fail(H.NotFound);
      }
      if found.value.cipher != c {
        return H.Fail(H.WrongCipher);
      }
      if c !in ciphers {
        return H.Fail(H.NotFound);
      }
      if !T.OwnsCipher(Snapshot(), c, u) {
        return H.Fail(H.NotAccessible);
      }
      DeleteAttachment(id);
      return H.Done;
    }

    // ---------- deletion ----------

    method DeleteAttachmentsOf(c: T.Id)
      requires T.DistinctIds(attachments)
      modifies this
      ensures Snapshot() == old(Snapshot()).(attachments := Without(old(attachments), T.AttachmentsOn(old(attachments), {c})))
    {
      hide Without, S.On;
      var mine := S.On(attachments, {c});
      ghost var all := attachments;
      assert Listed(mine[..0]) == {};
      WithoutNone(all, {});
      for i := 0 to |mine|
        invariant Snapshot() == old(Snapshot()).(attachments := Without(all, Listed(mine[..i])))
      {
        DeleteAttachment(mine[i].id);
        assert mine[i] in mine;
        OneAttachmentLess(all, Listed(mine[..i]), mine[i]);
        assert mine[..i + 1] == mine[..i] + [mine[i]];
        assert Listed(mine[..i + 1]) == Listed(mine[..i]) + {mine[i]};
      }
      assert mine[..|mine|] == mine;
      WithoutSame(all, Listed(mine), T.AttachmentsOn(all, {c}));
    }

    /** Placements, attachments and favorites go first, the cipher last. */
    method DeleteCipher(c: T.Id)
      requires T.DistinctIds(attachments)
      modifies this
      ensures Snapshot() == T.DeleteCiphers(old(Snapshot()), {c})
      ensures T.DistinctIds(attachments)
    {
      T.WithoutDistinctIds(attachments, T.AttachmentsOn(attachments, {c}));
      placed := Without(placed, T.RowsOfCiphers(placed, {c}));
      DeleteAttachmentsOf(c);
      favorites := T.FavoritesBeside(favorites, {c});
      ciphers := ciphers - {c};
    }

    /** Deletes the listed ciphers one after the other. */
    method DeleteEach(cs: set<T.Id>)
      requires T.DistinctIds(attachments)
      modifies this
      ensures Snapshot() == T.DeleteCiphers(old(Snapshot()), cs)
      ensures T.DistinctIds(attachments)
    {
      ghost var t := Snapshot();
      ghost var done: set<T.Id> := {};
      var todo := cs;
      T.DeleteNoCiphers(t);
      while todo != {}
        invariant T.DistinctIds(attachments) && todo + done == cs
        invariant Snapshot() == T.DeleteCiphers(t, done)
        decreases todo
      {
        var c :| c in todo;
        DeleteCipher(c);
        T.DeleteCiphersStep(t, done, c);
        todo, done := todo - {c}, done + {c};
      }
      assert done == cs;
    }

    method DeleteFolder(f: T.Id)
      modifies this
      ensures Snapshot() == T.DeleteFolders(old(Snapshot()), {f})
    {
      placed := Without(placed, T.RowsOfFolders(placed, {f}));
      folders := folders - {f};
    }

    method DeleteEachFolder(fs: set<T.Id>)
      modifies this
      ensures Snapshot() == T.DeleteFolders(old(Snapshot()), fs)
    {
      ghost var t := Snapshot();
      ghost var done: set<T.Id> := {};
      var todo := fs;
      T.DeleteNoFolders(t);
      while todo != {}
        invariant todo + done == fs
        invariant Snapshot() == T.DeleteFolders(t, done)
        decreases todo
      {
        var f :| f in todo;
        DeleteFolder(f);
        T.DeleteFoldersStep(t, done, f);
        todo, done := todo - {f}, done + {f};
      }
      assert done == fs;
    }

    method PurgeVault(u: T.UserId)
      requires T.DistinctIds(attachments)
      modifies this
      ensures Snapshot() == H.PurgeVault(old(Snapshot()), u)
    {
      DeleteEach(T.CiphersOf(Snapshot(), u));
      DeleteEachFolder(T.FoldersOf(Snapshot(), u));
    }

    method RemoveUser(u: T.UserId) returns (o: H.Outcome)
      requires T.DistinctIds(attachments)
      modifies this
      ensures (Snapshot(), o) == H.RemoveUser(old(Snapshot()), u)
    {
      if u !in people.users {
        return H.Fail(H.NotFound);
      }
      DeleteEach(T.CiphersOf(Snapshot(), u));
      favorites := set x | x in favorites && x.0 != u;
      DeleteEachFolder(T.FoldersOf(Snapshot(), u));
      people := H.WithoutPerson(people, u);
      return H.Done;
    }

    // ---------- many at once ----------

    method MoveSelected(u: T.UserId, ids: seq<T.Id>, target: Option<T.Id>, order: seq<T.Id>) returns (o: H.Outcome)
      modifies this
      ensures (Snapshot(), o) == H.MoveSelected(old(Snapshot()), u, ids, target, order)
    {
      if target.Some? && !T.OwnsFolder(folders, target.value, u) {
        return H.Fail(H.InvalidFolder);
      }
      ghost var t := Snapshot();
      for i := 0 to |order|
        invariant (Snapshot(), H.Done) == H.MoveEach(t, u, order[..i], target)
      {
        var moved := MoveToFolder(order[i], target, u);
        assert order[..i + 1][..i] == order[..i];
        if !moved {
          MoveStops(t, u, order, target, i + 1);
          return H.Fail(H.MoveFailed);
        }
      }
      assert order[..|order|] == order;
      if |ids| != |order| {
        return H.Fail(H.NotAllMoved);
      }
      return H.Done;
    }

    method Import(env: H.Env, u: T.UserId, ds: seq<H.CipherData>, fs: seq<H.FolderData>, rs: seq<H.Relation>) returns (o: H.Outcome)
      modifies this
      ensures (Snapshot(), o) == H.Import(env, old(Snapshot()), u, ds, fs, rs)
    {
      if !H.Importable(env, ds) {
        return H.Fail(H.ValidationErrors);
      }
      var had := T.FoldersOf(Snapshot(), u);
      var ids := ImportFolders(u, had, fs);
      var relations := CollectRelations(rs);
      o := ImportCiphers(env, u, ds, relations, ids);
    }

    method ImportFolders(u: T.UserId, had: set<T.Id>, fs: seq<H.FolderData>) returns (ids: seq<T.Id>)
      modifies this
      ensures (Snapshot(), ids) == H.ImportFolders(old(Snapshot()), u, had, fs)
    {
      ghost var t := Snapshot();
      ids := [];
      for i := 0 to |fs|
        invariant (Snapshot(), ids) == H.ImportFolders(t, u, had, fs[..i])
      {
        assert fs[..i + 1][..i] == fs[..i];
        if fs[i].id.Some? && fs[i].id.value in had {
          ids := ids + [fs[i].id.value];
        } else {
          var f := NewId();
          folders := folders[f := T.Folder(u, fs[i].name)];
          ids := ids + [f];
        }
      }
      assert fs[..|fs|] == fs;
    }

    method CollectRelations(rs: seq<H.Relation>) returns (relations: map<nat, nat>)
      ensures relations == H.RelationMap(rs)
    {
      relations := map[];
      for i := 0 to |rs|
        invariant relations == H.RelationMap(rs[..i])
      {
        assert rs[..i + 1][..i] == rs[..i];
        relations := relations[rs[i].cipher := rs[i].folder];
      }
      assert rs[..|rs|] == rs;
    }

    method ImportOne(env: H.Env, u: T.UserId, d: H.CipherData, folder: Option<T.Id>) returns (o: H.Outcome)
      modifies this
      ensures (Snapshot(), o) == H.ImportOne(env, old(Snapshot()), u, d, folder)
    {
      hide H.UpdateFromData;
      var cipher := H.NewCipher(env, d, None);
      var c := NewId();
      cipher, o := UpdateFromData(env, u, c, cipher, d.(folder := folder), false);
    }

    method ImportCiphers(env: H.Env, u: T.UserId, ds: seq<H.CipherData>, relations: map<nat, nat>, ids: seq<T.Id>) returns (o: H.Outcome)
      modifies this
      ensures (Snapshot(), o) == H.ImportCiphers(env, old(Snapshot()), u, ds, relations, ids)
    {
      hide H.ImportOne;
      ghost var t := Snapshot();
      for i := 0 to |ds|
        invariant (Snapshot(), H.Done) == H.ImportCiphers(env, t, u, ds[..i], relations, ids)
      {
        assert ds[..i + 1][..i] == ds[..i];
        o := ImportOne(env, u, ds[i], H.FolderFor(relations, ids, i));
        if o.Fail? {
          ImportStops(env, t, u, ds, relations, ids, i + 1);
          return;
        }
      }
      assert ds[..|ds|] == ds;
      o := H.Done;
    }

    method RotateFolders(u: T.UserId, fs: seq<H.FolderData>) returns (o: H.Outcome)
      modifies this
      ensures (Snapshot(), o) == H.RotateFolders(old(Snapshot()), u, fs)
    {
      ghost var t := Snapshot();
      var existing := map f | f in folders && folders[f].owner == u :: folders[f];
      for i := 0 to |fs|
        invariant (Snapshot(), H.Done) == H.RotateFolders(t, u, fs[..i])
        invariant forall f :: f in existing <==> T.OwnsFolder(folders, f, u)
        invariant forall f :: f in existing ==> folders[f] == existing[f]
      {
        assert fs[..i + 1][..i] == fs[..i];
        if fs[i].id.Some? {
          var f := fs[i].id.value;
          if f !in existing {
            RotateFoldersStops(t, u, fs, i + 1);
            return H.Fail(H.InvalidFolder);
          }
          var saved := existing[f].(name := fs[i].name);
          existing := existing[f := saved];
          folders := folders[f := saved];
        }
      }
      assert fs[..|fs|] == fs;
      return H.Done;
    }

    method RotateCiphers(env: H.Env, u: T.UserId, ds: seq<H.CipherData>) returns (o: H.Outcome)
      modifies this
      ensures (Snapshot(), o) == H.RotateCiphers(env, old(Snapshot()), u, ds)
    {
      hide H.UpdateFromData;
      ghost var t := Snapshot();
      var existing := map c | c in ciphers && ciphers[c].owner == Some(u) :: ciphers[c];
      for i := 0 to |ds|
        invariant (Snapshot(), H.Done) == H.RotateCiphers(env, t, u, ds[..i])
        invariant forall c :: c in existing <==> T.OwnsCipher(Snapshot(), c, u)
        invariant forall c :: c in existing ==> ciphers[c] == existing[c]
      {
        assert ds[..i + 1][..i] == ds[..i];
        if ds[i].id.None? {
          RotateCiphersStops(env, t, u, ds, i + 1);
          return H.Fail(H.MissingId);
        }
        var c := ds[i].id.value;
        if c !in existing {
          RotateCiphersStops(env, t, u, ds, i + 1);
          return H.Fail(H.NotFound);
        }
        var saved;
        saved, o := UpdateFromData(env, u, c, existing[c], ds[i], false);
        if o.Fail? {
          RotateCiphersStops(env, t, u, ds, i + 1);
          return;
        }
        existing := existing[c := saved];
      }
      assert ds[..|ds|] == ds;
      o := H.Done;
    }

    method RotateKeys(env: H.Env, u: T.UserId, k: H.KeyData) returns (o: H.Outcome)
      modifies this
      ensures (Snapshot(), o) == H.RotateKeys(env, old(Snapshot()), u, k)
    {
      var refused := H.KeyDataError(env, Snapshot(), u, k);
      if refused.Some? {
        return H.Fail(refused.value);
      }
      o := RotateFolders(u, k.folders);
      if o.Done? {
        o := RotateCiphers(env, u, k.ciphers);
      }
    }

    // ---------- requests ----------

    function Access(u: T.UserId, c: T.Id): H.Outcome
      reads this
    {
      if c !in ciphers then H.Fail(H.NotFound)
      else if !T.OwnsCipher(Snapshot(), c, u) then H.Fail(H.NotAccessible)
      else H.Done
    }

    method SetDeletedAt(env: H.Env, u: T.UserId, c: T.Id, at: Option<T.Time>) returns (o: H.Outcome)
      modifies this
      ensures (Snapshot(), o) == H.OnOwnCipher(old(Snapshot()), u, c, H.SetDeleted(env, old(Snapshot()), c, at))
    {
      o := Access(u, c);
      if o.Done? {
        var cipher := ciphers[c].(deletedAt := at);
        ciphers := ciphers[c := cipher.(updatedAt := env.now)];
      }
    }

    method HardDelete(u: T.UserId, c: T.Id) returns (o: H.Outcome)
      requires T.DistinctIds(attachments)
      modifies this
      ensures (Snapshot(), o) == H.OnOwnCipher(old(Snapshot()), u, c, T.DeleteCiphers(old(Snapshot()), {c}))
    {
      o := Access(u, c);
      if o.Done? {
        DeleteCipher(c);
      }
    }

    method Archive(env: H.Env, u: T.UserId, c: T.Id) returns (o: H.Outcome)
      modifies this
      ensures (Snapshot(), o) == H.OnOwnCipher(old(Snapshot()), u, c, T.SetArchived(old(Snapshot()), c, u, env.now))
    {
      o := Access(u, c);
      if o.Done? {
        archives := archives[(u, c) := env.now];
      }
    }

    method TakeOutOfArchive(u: T.UserId, c: T.Id) returns (o: H.Outcome)
      modifies this
      ensures (Snapshot(), o) == H.OnOwnCipher(old(Snapshot()), u, c, T.Unarchive(old(Snapshot()), c, u))
    {
      o := Access(u, c);
      if o.Done? {
        archives := archives - {(u, c)};
      }
    }

    method ChangeFolder(env: H.Env, u: T.UserId, a: H.Action) returns (o: H.Outcome)
      requires a.NewFolder? || a.RenameFolder? || a.DropFolder?
      modifies this
      ensures (Snapshot(), o) == H.Perform(env, old(Snapshot()), u, a)
    {
      match a
      case NewFolder(name) =>
        var f := NewId();
        folders := folders[f := T.Folder(u, name)];
        return H.Done;
      case RenameFolder(f, name) =>
        if !T.OwnsFolder(folders, f, u) {
          return H.Fail(H.InvalidFolder);
        }
        folders := folders[f := folders[f].(name := name)];
        return H.Done;
      case DropFolder(f) =>
        if !T.OwnsFolder(folders, f, u) {
          return H.Fail(H.InvalidFolder);
        }
        DeleteFolder(f);
        return H.Done;
    }

    method Perform(env: H.Env, u: T.UserId, a: H.Action) returns (o: H.Outcome)
      requires T.Inv(Snapshot())
      modifies this
      ensures (Snapshot(), o) == H.Perform(env, old(Snapshot()), u, a)
      ensures T.Inv(Snapshot())
    {
      L.PerformKeeps(env, Snapshot(), u, a);
      match a
      case Create(d) => o := CreateCipher(env, u, d);
      case CloneOrShareNew(d, collections) => o := CreateShared(env, u, d, collections);
      case Edit(c, d) => o := EditCipher(env, u, c, d);
      case Share(c, d, collections, quiet) => o := ShareCipher(env, u, c, d, collections, !quiet);
      case Partial(c, f, fav) => o := PartialUpdate(u, c, f, fav);
      case SoftDelete(c) => o := SetDeletedAt(env, u, c, Some(env.now));
      case Restore(c) => o := SetDeletedAt(env, u, c, None);
      case HardDelete(c) => o := HardDelete(u, c);
      case Archive(c) => o := Archive(env, u, c);
      case TakeOutOfArchive(c) => o := TakeOutOfArchive(u, c);
      case Announce(c, fileName, key, size) => o := DeclareAttachment(u, c, fileName, key, size);
      case Upload(c, id, size) => o := UploadAnnounced(env, u, c, id, size);
      case UploadLegacy(c, name, key, size) => o := StoreUpload(env, u, None, c, name, key, size);
      case RemoveAttachment(c, id) => o := DropAttachment(u, c, id);
      case _ => o := ChangeFolder(env, u, a);
    }

    method PerformEach(env: H.Env, u: T.UserId, actions: seq<H.Action>) returns (o: H.Outcome)
      requires T.Inv(Snapshot())
      modifies this
      ensures (Snapshot(), o) == H.PerformEach(env, old(Snapshot()), u, actions)
      ensures T.Inv(Snapshot())
    {
      hide T.Inv, H.Perform;
      ghost var t := Snapshot();
      for i := 0 to |actions|
        invariant (Snapshot(), H.Done) == H.PerformEach(env, t, u, actions[..i])
        invariant T.Inv(Snapshot())
      {
        assert actions[..i + 1][..i] == actions[..i];
        o := Perform(env, u, actions[i]);
        if o.Fail? {
          PerformStops(env, t, u, actions, i + 1);
          return;
        }
      }
      assert actions[..|actions|] == actions;
      o := H.Done;
    }

    /** One request of an authenticated user, or of the server itself. */
    method Serve(env: H.Env, u: T.UserId, r: H.Request) returns (o: H.Outcome)
      requires T.Inv(Snapshot()) && H.Admissible(Snapshot(), u, r)
      modifies this
      ensures (Snapshot(), o) == H.Handle(env, old(Snapshot()), u, r)
      ensures T.Inv(Snapshot())
    {
      L.HandleKeeps(env, Snapshot(), u, r);
      match r
      case One(a) => o := Perform(env, u, a);
      case Each(actions) => o := PerformEach(env, u, actions);
      case Move(ids, target, order) => o := MoveSelected(u, ids, target, order);
      case ImportVault(ds, fs, rs) => o := Import(env, u, ds, fs, rs);
      case Rotate(k) => o := RotateKeys(env, u, k);
      case Purge(passwordOk) =>
        if passwordOk {
          PurgeVault(u);
          o := H.Done;
        } else {
          o := H.Fail(H.InvalidPassword);
        }
      case DeleteAccount(victim) => o := RemoveUser(victim);
      case PurgeTrash(before) =>
        DeleteEach(H.Trashed(Snapshot(), before));
        o := H.Done;
    }
  }

  function Listed(atts: seq<T.Attachment>): set<T.Attachment> { set a | a in atts }

  lemma OneAttachmentLess(all: seq<T.Attachment>, gone: set<T.Attachment>, a: T.Attachment)
    requires T.DistinctIds(all) && a in all
    ensures var left := Without(all, gone);
      Without(left, T.WithId(left, a.id)) == Without(all, gone + {a})
  {
    var left := Without(all, gone);
    WithoutTwice(all, gone, T.WithId(left, a.id));
    forall x | x in all ensures x in gone + T.WithId(left, a.id) <==> x in gone + {a} {
      var i :| 0 <= i < |all| && all[i] == x;
      var j :| 0 <= j < |all| && all[j] == a;
      assert x.id == a.id ==> i == j;
    }
    WithoutSame(all, gone + T.WithId(left, a.id), gone + {a});
  }

  // ---------- a loop that stops leaves the fold where it stopped ----------

  lemma {:induction false} PerformStops(env: H.Env, t: T.Tables, u: T.UserId, actions: seq<H.Action>, i: nat)
    requires i <= |actions| && H.PerformEach(env, t, u, actions[..i]).1.Fail?
    ensures H.PerformEach(env, t, u, actions) == H.PerformEach(env, t, u, actions[..i])
    decreases |actions| - i
  {
    if i < |actions| {
      assert actions[..i + 1][..i] == actions[..i];
      PerformStops(env, t, u, actions, i + 1);
    } else {
      assert actions[..i] == actions;
    }
  }

  lemma {:induction false} MoveStops(t: T.Tables, u: T.UserId, order: seq<T.Id>, target: Option<T.Id>, i: nat)
    requires i <= |order| && H.MoveEach(t, u, order[..i], target).1.Fail?
    ensures H.MoveEach(t, u, order, target) == H.MoveEach(t, u, order[..i], target)
    decreases |order| - i
  {
    if i < |order| {
      assert order[..i + 1][..i] == order[..i];
      MoveStops(t, u, order, target, i + 1);
    } else {
      assert order[..i] == order;
    }
  }

  lemma {:induction false} ImportStops(env: H.Env, t: T.Tables, u: T.UserId, ds: seq<H.CipherData>, relations: map<nat, nat>, ids: seq<T.Id>, i: nat)
    requires i <= |ds| && H.ImportCiphers(env, t, u, ds[..i], relations, ids).1.Fail?
    ensures H.ImportCiphers(env, t, u, ds, relations, ids) == H.ImportCiphers(env, t, u, ds[..i], relations, ids)
    decreases |ds| - i
  {
    if i < |ds| {
      assert ds[..i + 1][..i] == ds[..i];
      ImportStops(env, t, u, ds, relations, ids, i + 1);
    } else {
      assert ds[..i] == ds;
    }
  }

  lemma {:induction false} RotateFoldersStops(t: T.Tables, u: T.UserId, fs: seq<H.FolderData>, i: nat)
    requires i <= |fs| && H.RotateFolders(t, u, fs[..i]).1.Fail?
    ensures H.RotateFolders(t, u, fs) == H.RotateFolders(t, u, fs[..i])
    decreases |fs| - i
  {
    if i < |fs| {
      assert fs[..i + 1][..i] == fs[..i];
      RotateFoldersStops(t, u, fs, i + 1);
    } else {
      assert fs[..i] == fs;
    }
  }

  lemma {:induction false} RotateCiphersStops(env: H.Env, t: T.Tables, u: T.UserId, ds: seq<H.CipherData>, i: nat)
    requires i <= |ds| && H.RotateCiphers(env, t, u, ds[..i]).1.Fail?
    ensures H.RotateCiphers(env, t, u, ds) == H.RotateCiphers(env, t, u, ds[..i])
    decreases |ds| - i
  {
    if i < |ds| {
      assert ds[..i + 1][..i] == ds[..i];
      RotateCiphersStops(env, t, u, ds, i + 1);
    } else {
      assert ds[..i] == ds;
    }
  }
}
