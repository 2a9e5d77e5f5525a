/**
  The index a full sync builds with four queries, and the two ways a cipher is
  rendered: from that index, or with one query per answer. The index keeps the
  last folder row it meets for a cipher, the direct query returns the first.
 */
module VaultSync {
  import opened Sequences
  import opened Wrappers
  import opened VaultTables
  import opened VaultHandlers
  import opened VaultLaws

  datatype SyncData = SyncData(
    attachments: map<Id, seq<Attachment>>, folders: map<Id, Id>, favorites: set<Id>, archives: map<Id, Time>)

  /** What a rendered cipher shows of the tables beside its own row; a cipher without attachments shows null. */
  datatype View = View(
    attachments: Option<seq<Attachment>>, folder: Option<Id>, favorite: bool, archived: Option<Time>, edit: bool)

  // ---------- the queries ----------

  /** The rows placing ciphers in the user's folders, in table order. */
  function RowsOf(rows: seq<Row>, folders: map<Id, Folder>, u: UserId): (r: seq<Row>)
    ensures forall x :: x in r <==> x in rows && OwnsFolder(folders, x.folder, u)
  {
    if rows == [] then [] else
    assert rows == [rows[0]] + rows[1..];
    (if OwnsFolder(folders, rows[0].folder, u) then [rows[0]] else []) + RowsOf(rows[1..], folders, u)
  }

  /** The attachments on the given ciphers, in table order. */
  function On(atts: seq<Attachment>, cs: set<Id>): (r: seq<Attachment>)
    ensures forall a :: a in r <==> a in atts && a.cipher in cs
  {
    if atts == [] then [] else
    var n := |atts| - 1;
    assert atts == atts[..n] + [atts[n]];
    On(atts[..n], cs) + (if atts[n].cipher in cs then [atts[n]] else [])
  }

  function FavoritesOf(favorites: set<(UserId, Id)>, u: UserId): set<Id> {
    set x | x in favorites && x.0 == u :: x.1
  }

  function ArchivesOf(archives: map<(UserId, Id), Time>, u: UserId): map<Id, Time> {
    map x | x in archives && x.0 == u :: x.1 := archives[x]
  }

  // ---------- the index ----------

  /** Collecting pairs into a map: a later pair replaces an earlier one. */
  function Collected(rows: seq<Row>): map<Id, Id> {
    if rows == [] then map[] else
    var n := |rows| - 1;
    Collected(rows[..n])[rows[n].cipher := rows[n].folder]
  }

  function Grouped(atts: seq<Attachment>): map<Id, seq<Attachment>> {
    if atts == [] then map[] else
    var n := |atts| - 1;
    var m := Grouped(atts[..n]);
    var c := atts[n].cipher;
    m[c := (if c in m then m[c] else []) + [atts[n]]]
  }

  function SyncDataOf(t: Tables, u: UserId): SyncData {
    SyncData(Grouped(On(t.attachments, CiphersOf(t, u))), Collected(RowsOf(t.placed, t.folders, u)),
             FavoritesOf(t.favorites, u), ArchivesOf(t.archives, u))
  }

  method CollectFolders(rows: seq<Row>) returns (folders: map<Id, Id>)
    ensures folders == Collected(rows)
  {
    folders := map[];
    for i := 0 to |rows|
      invariant folders == Collected(rows[..i])
    {
      assert rows[..i + 1][..i] == rows[..i];
      folders := folders[rows[i].cipher := rows[i].folder];
    }
    assert rows[..|rows|] == rows;
  }

  method GroupAttachments(attachments: seq<Attachment>) returns (groups: map<Id, seq<Attachment>>)
    ensures groups == Grouped(attachments)
  {
    groups := map[];
    for i := 0 to |attachments|
      invariant groups == Grouped(attachments[..i])
    {
      assert attachments[..i + 1][..i] == attachments[..i];
      ghost var before := groups;
      var c := attachments[i].cipher;
      if c !in groups {
        groups := groups[c := []];
      }
      groups := groups[c := groups[c] + [attachments[i]]];
      assert groups == before[c := (if c in before then before[c] else []) + [attachments[i]]];
    }
    assert attachments[..|attachments|] == attachments;
  }

  method BuildSyncData(t: Tables, u: UserId) returns (r: SyncData)
    ensures r == SyncDataOf(t, u)
  {
    var folders := CollectFolders(RowsOf(t.placed, t.folders, u));
    var groups := GroupAttachments(On(t.attachments, CiphersOf(t, u)));
    r := SyncData(groups, folders, FavoritesOf(t.favorites, u), ArchivesOf(t.archives, u));
  }

  // ---------- the two renderings ----------

  function IndexedView(t: Tables, u: UserId, c: Id, data: SyncData): View {
    View(if c in data.attachments && data.attachments[c] != [] then Some(data.attachments[c]) else None,
         if c in data.folders then Some(data.folders[c]) else None,
         c in data.favorites,
         if c in data.archives then Some(data.archives[c]) else None,
         OwnsCipher(t, c, u))
  }

  function DirectView(t: Tables, u: UserId, c: Id): View {
    View(if On(t.attachments, {c}) != [] then Some(On(t.attachments, {c})) else None,
         GetFolder(t, c, u),
         (u, c) in t.favorites,
         if (u, c) in t.archives then Some(t.archives[(u, c)]) else None,
         OwnsCipher(t, c, u))
  }

  /** The attachments shown are those of a shorter table first: they come in table order. */
  lemma {:induction false} OnInOrder(atts: seq<Attachment>, cs: set<Id>, k: nat)
    requires k <= |atts|
    ensures On(atts[..k], cs) <= On(atts, cs)
  {
    if k == |atts| {
      assert atts[..k] == atts;
    } else {
      var n := |atts| - 1;
      OnInOrder(atts[..n], cs, k);
      assert atts[..n][..k] == atts[..k];
    }
  }

  /** What a direct rendering shows, from the rows: every attachment on the cipher, a folder of the user that holds it, his own marks. */
  lemma DirectViewExact(t: Tables, u: UserId, c: Id)
    ensures var v := DirectView(t, u, c);
      && (v.attachments.Some? <==> exists a :: a in t.attachments && a.cipher == c)
      && (v.attachments.Some? ==> forall a :: a in v.attachments.value <==> a in t.attachments && a.cipher == c)
      && (v.folder.Some? ==> Row(c, v.folder.value) in t.placed && v.folder.value in t.folders && t.folders[v.folder.value].owner == u)
      && (v.folder.None? ==> forall f :: Row(c, f) in t.placed && f in t.folders ==> t.folders[f].owner != u)
      && (v.favorite <==> (u, c) in t.favorites)
      && (v.archived.Some? <==> (u, c) in t.archives) && (v.archived.Some? ==> v.archived.value == t.archives[(u, c)])
      && (v.edit <==> c in t.ciphers && t.ciphers[c].owner == Some(u))
  {
    FirstFolderRow(t.placed, t.folders, c, u);
    var shown := On(t.attachments, {c});
    if shown != [] {
      assert shown[0] in shown;
    }
  }

  // ---------- when they agree ----------

  /** All of the user's folders that hold the cipher are one folder. */
  ghost predicate OneFolder(rows: seq<Row>, folders: map<Id, Folder>, c: Id, u: UserId) {
    forall f, g :: Row(c, f) in rows && Row(c, g) in rows && OwnsFolder(folders, f, u) && OwnsFolder(folders, g, u) ==> f == g
  }

  lemma {:induction false} CollectedRow(rows: seq<Row>, c: Id)
    ensures c in Collected(rows) <==> exists f :: Row(c, f) in rows
    ensures c in Collected(rows) ==> Row(c, Collected(rows)[c]) in rows
  {
    if rows != [] {
      var n := |rows| - 1;
      CollectedRow(rows[..n], c);
      assert rows == rows[..n] + [rows[n]];
      assert rows[n] == Row(rows[n].cipher, rows[n].folder);
    }
  }

  /** A row of the cipher stands in the index if no later row replaces it. */
  lemma {:induction false} CollectedIsLast(rows: seq<Row>, c: Id) returns (k: nat)
    requires c in Collected(rows)
    ensures k < |rows| && rows[k] == Row(c, Collected(rows)[c])
    ensures forall j :: k < j < |rows| ==> rows[j].cipher != c
  {
    var n := |rows| - 1;
    k := n;
    if rows[n].cipher != c {
      k := CollectedIsLast(rows[..n], c);
    }
  }

  lemma {:induction false} FoundIsFirst(rows: seq<Row>, folders: map<Id, Folder>, c: Id, u: UserId) returns (k: nat)
    requires FirstFolder(rows, folders, c, u).Some?
    ensures k < |rows| && rows[k] == Row(c, FirstFolder(rows, folders, c, u).value)
    ensures forall j :: 0 <= j < k ==> rows[j].cipher != c || !OwnsFolder(folders, rows[j].folder, u)
  {
    k := 0;
    if rows[0].cipher != c || !OwnsFolder(folders, rows[0].folder, u) {
      var k' := FoundIsFirst(rows[1..], folders, c, u);
      k := k' + 1;
      forall j | 0 <= j < k ensures rows[j].cipher != c || !OwnsFolder(folders, rows[j].folder, u) {
        if j > 0 {
          assert rows[j] == rows[1..][j - 1];
        }
      }
    }
  }

  lemma {:induction false} RowsOfKeepsFirst(rows: seq<Row>, folders: map<Id, Folder>, c: Id, u: UserId)
    ensures FirstFolder(RowsOf(rows, folders, u), folders, c, u) == FirstFolder(rows, folders, c, u)
  {
    if rows != [] {
      var mine := RowsOf(rows[1..], folders, u);
      RowsOfKeepsFirst(rows[1..], folders, c, u);
      assert [rows[0]] + mine != [] && ([rows[0]] + mine)[1..] == mine;
      assert [] + mine == mine;
    }
  }

  lemma {:induction false} RowsOfDistinct(rows: seq<Row>, folders: map<Id, Folder>, u: UserId)
    requires Distinct(rows)
    ensures Distinct(RowsOf(rows, folders, u))
  {
    if rows != [] {
      var rest := rows[1..];
      var mine := RowsOf(rest, folders, u);
      forall i, j | 0 <= i < j < |rest| ensures rest[i] != rest[j] {
        assert rest[i] == rows[i + 1] && rest[j] == rows[j + 1];
      }
      RowsOfDistinct(rest, folders, u);
      forall j | 0 <= j < |mine| ensures mine[j] != rows[0] {
        assert mine[j] in mine;
        var k :| 0 <= k < |rest| && rest[k] == mine[j];
        assert rest[k] == rows[k + 1];
      }
    }
  }

  /** If the first row of the cipher is also its last, it is the only one. */
  lemma FirstAndLast(mine: seq<Row>, folders: map<Id, Folder>, c: Id, u: UserId, f: Id, g: Id)
    requires Distinct(mine) && forall r :: r in mine ==> OwnsFolder(folders, r.folder, u)
    requires Row(c, f) in mine && Row(c, g) in mine && f != g
    ensures c in Collected(mine) && FirstFolder(mine, folders, c, u) != Some(Collected(mine)[c])
  {
    CollectedRow(mine, c);
    FirstFolderRow(mine, folders, c, u);
    assert OwnsFolder(folders, Row(c, f).folder, u);
    var last := CollectedIsLast(mine, c);
    var first := FoundIsFirst(mine, folders, c, u);
    var i :| 0 <= i < |mine| && mine[i] == Row(c, f);
    var j :| 0 <= j < |mine| && mine[j] == Row(c, g);
    assert mine[i] in mine && mine[j] in mine;
    assert first <= i <= last && first <= j <= last;
  }

  /** The indexed folder is the queried folder exactly when there is no second one to find. */
  lemma FoldersAgree(t: Tables, u: UserId, c: Id)
    requires Distinct(t.placed)
    ensures IndexedView(t, u, c, SyncDataOf(t, u)).folder == DirectView(t, u, c).folder
            <==> OneFolder(t.placed, t.folders, c, u)
  {
    var mine := RowsOf(t.placed, t.folders, u);
    CollectedRow(mine, c);
    FirstFolderRow(t.placed, t.folders, c, u);
    if !OneFolder(t.placed, t.folders, c, u) {
      var f, g :| Row(c, f) in t.placed && Row(c, g) in t.placed && OwnsFolder(t.folders, f, u) && OwnsFolder(t.folders, g, u) && f != g;
      RowsOfKeepsFirst(t.placed, t.folders, c, u);
      RowsOfDistinct(t.placed, t.folders, u);
      FirstAndLast(mine, t.folders, c, u, f, g);
    }
  }

  lemma GroupedSnoc(atts: seq<Attachment>, a: Attachment)
    ensures var m := Grouped(atts);
      Grouped(atts + [a]) == m[a.cipher := (if a.cipher in m then m[a.cipher] else []) + [a]]
  {
    assert (atts + [a])[..|atts|] == atts;
  }

  /** The group of a cipher is its own attachments, in order, provided the query returned them. */
  lemma {:induction false} GroupedOn(atts: seq<Attachment>, cs: set<Id>, c: Id)
    ensures c in Grouped(On(atts, cs)) <==> c in cs && On(atts, {c}) != []
    ensures c in Grouped(On(atts, cs)) ==> Grouped(On(atts, cs))[c] == On(atts, {c})
  {
    if atts != [] {
      var n := |atts| - 1;
      var a := atts[n];
      var before := On(atts[..n], cs);
      GroupedOn(atts[..n], cs, c);
      GroupedSnoc(before, a);
      assert On(atts, cs) == before + (if a.cipher in cs then [a] else []);
      assert On(atts, {c}) == On(atts[..n], {c}) + (if a.cipher == c then [a] else []);
      if a.cipher !in cs {
        assert before + [] == before;
      }
    }
  }

  lemma ArchivesOfKey(archives: map<(UserId, Id), Time>, u: UserId, c: Id)
    ensures c in ArchivesOf(archives, u) <==> (u, c) in archives
    ensures c in ArchivesOf(archives, u) ==> ArchivesOf(archives, u)[c] == archives[(u, c)]
  {
    if (u, c) in archives {
      assert (u, c).1 in ArchivesOf(archives, u);
    }
  }

  lemma FavoritesOfKey(favorites: set<(UserId, Id)>, u: UserId, c: Id)
    ensures c in FavoritesOf(favorites, u) <==> (u, c) in favorites
  {
    if (u, c) in favorites {
      assert (u, c).1 in FavoritesOf(favorites, u);
    }
  }

  /**
    For any tables with the primary key of the placement rows respected: the
    two renderings are equal exactly when the cipher is in at most one of the
    user's folders and is the user's own or carries no attachment.
   */
  lemma ViewsAgree(t: Tables, u: UserId, c: Id)
    requires Distinct(t.placed)
    ensures IndexedView(t, u, c, SyncDataOf(t, u)) == DirectView(t, u, c)
            <==> OneFolder(t.placed, t.folders, c, u) && (OwnsCipher(t, c, u) || On(t.attachments, {c}) == [])
  {
    FoldersAgree(t, u, c);
    GroupedOn(t.attachments, CiphersOf(t, u), c);
    ArchivesOfKey(t.archives, u, c);
    FavoritesOfKey(t.favorites, u, c);
  }

  /** In every reachable state a sync shows each of the user's ciphers as a direct request would. */
  lemma SyncShowsTheTables(states: seq<Tables>, calls: seq<Call>, i: nat, u: UserId, c: Id)
    requires Execution(states, calls) && i < |states| && OwnsCipher(states[i], c, u)
    ensures IndexedView(states[i], u, c, SyncDataOf(states[i], u)) == DirectView(states[i], u, c)
  {
    ReachableInvariant(states, calls, i);
    var t := states[i];
    assert RowsSound(t);
    forall f, g | Row(c, f) in t.placed && Row(c, g) in t.placed ensures f == g {
      var a :| 0 <= a < |t.placed| && t.placed[a] == Row(c, f);
      var b :| 0 <= b < |t.placed| && t.placed[b] == Row(c, g);
      assert a == b;
    }
    ViewsAgree(t, u, c);
  }

  /** Without the invariant they can differ: one cipher in two folders of one user. */
  lemma TwoFoldersDisagree(people: People)
    ensures var t := Tables(map[0 := Cipher(Some("u"), 1, Payload(None, "", None, None, "", None, None), 0, None)],
                            map[1 := Folder("u", "a"), 2 := Folder("u", "b")],
                            [Row(0, 1), Row(0, 2)], {}, map[], [], people, 3);
      IndexedView(t, "u", 0, SyncDataOf(t, "u")).folder == Some(2) && DirectView(t, "u", 0).folder == Some(1)
  {
    var folders := map[1 := Folder("u", "a"), 2 := Folder("u", "b")];
    var rows := [Row(0, 1), Row(0, 2)];
    assert rows[1..] == [Row(0, 2)];
    assert RowsOf(rows[1..], folders, "u") == [Row(0, 2)];
    assert RowsOf(rows, folders, "u") == rows;
    assert rows[..1] == [Row(0, 1)];
  }
}
