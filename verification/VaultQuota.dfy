/**
  The attachment quota. A sum of stored sizes beyond i64 is refused by the
  database, as SQLite does, or, by one that sums without bound, returned for the
  caller to saturate; an upload is admitted by checked arithmetic.
 */
module VaultQuota {
  import opened Sequences
  import opened Wrappers
  import opened VaultTables
  import opened VaultHandlers
  import opened VaultLaws
  import opened VaultRequests

  lemma TotalSizeSnoc(atts: seq<Attachment>, a: Attachment, mine: set<Id>)
    ensures TotalSize(atts + [a], mine) == TotalSize(atts, mine) + (if a.cipher in mine then a.size else 0)
  {
    assert (atts + [a])[..|atts|] == atts;
  }

  lemma {:induction false} TotalSizeDrop(atts: seq<Attachment>, a: Attachment, drop: set<Attachment>, mine: set<Id>)
    requires DistinctIds(atts) && a in atts && forall x :: x in atts ==> (x in drop <==> x == a)
    ensures TotalSize(Without(atts, drop), mine) == TotalSize(atts, mine) - (if a.cipher in mine then a.size else 0)
  {
    hide Without, TotalSize;
    var n := |atts| - 1;
    var front, last := atts[..n], atts[n];
    assert atts == front + [last];
    WithoutSnoc(front, last, drop);
    TotalSizeSnoc(front, last, mine);
    LastIsNew(atts);
    if last == a {
      WithoutNone(front, drop);
      assert front + [] == front;
    } else {
      TotalSizeDrop(front, a, drop, mine);
      TotalSizeSnoc(Without(front, drop), last, mine);
    }
  }

  lemma LastIsNew(atts: seq<Attachment>)
    requires DistinctIds(atts) && atts != []
    ensures atts[|atts| - 1] !in atts[..|atts| - 1]
  {
    var n := |atts| - 1;
    forall x | x in atts[..n] ensures x != atts[n] {
      var i :| 0 <= i < n && atts[..n][i] == x;
      assert atts[i].id != atts[n].id;
    }
  }

  lemma TotalSizeWithout(atts: seq<Attachment>, a: Attachment, mine: set<Id>)
    requires DistinctIds(atts) && a in atts
    ensures TotalSize(Without(atts, WithId(atts, a.id)), mine) == TotalSize(atts, mine) - (if a.cipher in mine then a.size else 0)
  {
    forall x | x in atts ensures x in WithId(atts, a.id) <==> x == a {
      var i :| 0 <= i < |atts| && atts[i] == x;
      var j :| 0 <= j < |atts| && atts[j] == a;
      assert x.id == a.id ==> i == j;
    }
    TotalSizeDrop(atts, a, WithId(atts, a.id), mine);
  }

  function AnnouncedSize(announced: Option<Attachment>): int {
    if announced.Some? then announced.value.size else 0
  }

  ghost predicate SoundRequest(t: Tables, announced: Option<Attachment>, c: Id) {
    announced.Some? ==> announced.value in t.attachments && announced.value.cipher == c
  }

  /** An accepted upload replaces the announced size, or adds to nothing, by the actual size. */
  lemma StoredAfter(env: Env, t: Tables, u: UserId, announced: Option<Attachment>, c: Id,
                    fileName: Option<string>, key: Option<string>, size: nat)
    requires Inv(t) && SoundRequest(t, announced, c)
    requires StoreUpload(env, t, u, announced, c, fileName, key, size).1.Done?
    ensures StoredSize(StoreUpload(env, t, u, announced, c, fileName, key, size).0, u)
      == StoredSize(t, u) - AnnouncedSize(announced) + size
  {
    hide Without, TotalSize;
    match announced
    case Some(a) =>
      if size != a.size { ResizedSum(t, u, a, size); }
    case None =>
      AddedSum(t, u, Attachment(t.next, c, fileName.value, size, key));
  }

  lemma ResizedSum(t: Tables, u: UserId, a: Attachment, size: int)
    requires Inv(t) && a in t.attachments && OwnsCipher(t, a.cipher, u)
    ensures StoredSize(SaveAttachment(t, a.(size := size)), u) == StoredSize(t, u) - a.size + size
  {
    var mine := CiphersOf(t, u);
    TotalSizeWithout(t.attachments, a, mine);
    TotalSizeSnoc(Without(t.attachments, WithId(t.attachments, a.id)), a.(size := size), mine);
    assert CiphersOf(SaveAttachment(t, a.(size := size)), u) == mine;
  }

  lemma AddedSum(t: Tables, u: UserId, a: Attachment)
    requires Inv(t) && a.id == t.next && OwnsCipher(t, a.cipher, u)
    ensures StoredSize(SaveAttachment(Fresh(t), a), u) == StoredSize(t, u) + a.size
  {
    var mine := CiphersOf(t, u);
    WithoutNone(t.attachments, WithId(t.attachments, a.id));
    TotalSizeSnoc(t.attachments, a, mine);
    assert CiphersOf(SaveAttachment(Fresh(t), a), u) == mine;
  }

  lemma FindById(atts: seq<Attachment>, a: Attachment)
    requires DistinctIds(atts) && a in atts
    ensures FindAttachment(atts, a.id) == Some(a)
  {
    var found := FindAttachment(atts, a.id);
    assert found.Some?;
    var i :| 0 <= i < |atts| && atts[i] == a;
    var j :| 0 <= j < |atts| && atts[j] == found.value;
    assert i == j;
  }

  /** An announcement counts in full before anything is stored. */
  lemma AnnouncementCounts(t: Tables, u: UserId, c: Id, fileName: string, key: string, size: int)
    requires Inv(t) && DeclareAttachment(t, u, c, fileName, key, size).1.Done?
    ensures var t' := DeclareAttachment(t, u, c, fileName, key, size).0;
      && t'.attachments == t.attachments + [Attachment(t.next, c, fileName, size, Some(key))]
      && StoredSize(t', u) == StoredSize(t, u) + size
  {
    hide Without, TotalSize;
    WithoutNone(t.attachments, WithId(t.attachments, t.next));
    AddedSum(t, u, Attachment(t.next, c, fileName, size, Some(key)));
  }

  /** Announcing and then uploading comes to the same sum as a one-step upload of the actual size, whatever was announced. */
  lemma TwoStepsAreOne(env: Env, t: Tables, u: UserId, c: Id, fileName: string, key: string, claimed: int, size: nat)
    requires Inv(t) && DeclareAttachment(t, u, c, fileName, key, claimed).1.Done?
    requires var t1 := DeclareAttachment(t, u, c, fileName, key, claimed).0; UploadAnnounced(env, t1, u, c, t.next, size).1.Done?
    ensures var t1 := DeclareAttachment(t, u, c, fileName, key, claimed).0;
      var t2 := UploadAnnounced(env, t1, u, c, t.next, size).0;
      && StoredSize(t2, u) == StoredSize(t, u) + size
      && t2.attachments == t.attachments + [Attachment(t.next, c, fileName, size, Some(key))]
  {
    hide TotalSize, Without;
    var t1 := DeclareAttachment(t, u, c, fileName, key, claimed).0;
    var a := Attachment(t.next, c, fileName, claimed, Some(key));
    AnnounceKeeps(t, u, c, fileName, key, claimed);
    AnnouncementCounts(t, u, c, fileName, key, claimed);
    assert t1.attachments[|t.attachments|] == a;
    FindById(t1.attachments, a);
    StoredAfter(env, t1, u, Some(a), c, None, None, size);
    ReplacedLast(t.attachments, a);
  }

  lemma ReplacedLast(atts: seq<Attachment>, a: Attachment)
    requires forall x :: x in atts ==> x.id != a.id
    ensures Without(atts + [a], WithId(atts + [a], a.id)) == atts
  {
    WithoutSnoc(atts, a, WithId(atts + [a], a.id));
    WithoutNone(atts, WithId(atts + [a], a.id));
    assert a in atts + [a];
    assert atts + [] == atts;
  }

  /** Removing a freshly stored attachment leaves everything but the identifier counter as before the upload. */
  lemma RemovalUndoesUpload(env: Env, t: Tables, u: UserId, c: Id, fileName: string, key: string, size: nat)
    requires Inv(t) && StoreUpload(env, t, u, None, c, Some(fileName), Some(key), size).1.Done?
    ensures var t1 := StoreUpload(env, t, u, None, c, Some(fileName), Some(key), size).0;
      DropAttachment(t1, u, c, t.next) == (Fresh(t), Done)
  {
    var a := Attachment(t.next, c, fileName, size, Some(key));
    var t1 := StoreUpload(env, t, u, None, c, Some(fileName), Some(key), size).0;
    UploadKeeps(env, t, u, None, c, Some(fileName), Some(key), size);
    hide Without;
    assert t1 == SaveAttachment(Fresh(t), a);
    WithoutNone(t.attachments, WithId(t.attachments, a.id));
    assert t1.attachments == t.attachments + [a];
    assert t1.attachments[|t.attachments|] == a;
    FindById(t1.attachments, a);
    ReplacedLast(t.attachments, a);
  }

  /** The quota in bytes. */
  function Quota(limitKb: int): int { limitKb * 1024 }

  /**
    After every accepted upload, legacy or announced, the owner's stored sizes
    are within the limit, however much was announced before: always when the
    database refuses sums beyond i64, as SQLite does, and otherwise provided
    the stored sum fits.
   */
  lemma QuotaHolds(env: Env, t: Tables, u: UserId, announced: Option<Attachment>, c: Id,
                   fileName: Option<string>, key: Option<string>, size: nat)
    requires Inv(t) && SoundRequest(t, announced, c) && env.quotaKb.Some? && (env.wideSums ==> StoredSize(t, u) <= I64_MAX)
    requires StoreUpload(env, t, u, announced, c, fileName, key, size).1.Done?
    ensures StoredSize(StoreUpload(env, t, u, announced, c, fileName, key, size).0, u) <= Quota(env.quotaKb.value)
  {
    StoredAfter(env, t, u, announced, c, fileName, key, size);
    NeverNegative(t, u);
  }

  /** Announcements alone can take the sum beyond i64; under SQLite every upload of the owner then fails, and only for that reason. */
  lemma SumRefusedExactly(env: Env, t: Tables, u: UserId, adjust: int, size: nat)
    requires Inv(t)
    ensures QuotaError(env, t, u, adjust, size) == Some(SumOverflow) <==>
      !env.wideSums && StoredSize(t, u) > I64_MAX && env.quotaKb.Some? && env.quotaKb.value != 0
  {
    NeverNegative(t, u);
  }

  lemma NeverNegative(t: Tables, u: UserId)
    requires Inv(t)
    ensures StoredSize(t, u) >= 0
  {
    TotalNonNegative(t.attachments, CiphersOf(t, u));
  }

  lemma {:induction false} TotalNonNegative(atts: seq<Attachment>, mine: set<Id>)
    requires forall a :: a in atts ==> a.size >= 0
    ensures TotalSize(atts, mine) >= 0
  {
    if atts != [] {
      TotalNonNegative(atts[..|atts| - 1], mine);
    }
  }

  /** A legacy upload is always within the limit: a sum beyond i64 leaves no room at all. */
  lemma LegacyQuotaHolds(env: Env, t: Tables, u: UserId, c: Id, fileName: Option<string>, key: Option<string>, size: nat)
    requires Inv(t) && env.quotaKb.Some?
    requires StoreUpload(env, t, u, None, c, fileName, key, size).1.Done?
    ensures StoredSize(StoreUpload(env, t, u, None, c, fileName, key, size).0, u) <= Quota(env.quotaKb.value)
  {
    NeverNegative(t, u);
    StoredAfter(env, t, u, None, c, fileName, key, size);
  }

  /** Some size is accepted for the announced attachment and takes the owner over the limit. */
  ghost predicate Overshoots(env: Env, t: Tables, u: UserId, a: Attachment, size: nat)
    requires env.quotaKb.Some?
  {
    var (t', o) := StoreUpload(env, t, u, Some(a), a.cipher, None, None, size);
    o.Done? && StoredSize(t', u) > Quota(env.quotaKb.value)
  }

  /** The situation in which the saturated sum hides an excess. */
  ghost predicate SaturatedRoom(env: Env, t: Tables, u: UserId, a: Attachment)
    requires env.quotaKb.Some?
  {
    var limitKb := env.quotaKb.value;
    && env.wideSums && StoredSize(t, u) > I64_MAX
    && I64_MAX - LEEWAY <= Quota(limitKb) <= I64_MAX
    && Quota(limitKb) - I64_MAX + a.size > 0
    && a.size + LEEWAY <= I64_MAX
  }

  /**
    Exactly when an announced upload can break the limit: the database sums
    without bound, the stored sum exceeds i64, the limit is within the size
    leeway of i64, and the announced size leaves room against the saturated
    sum. Under SQLite it never can.
   */
  lemma QuotaBroken(env: Env, t: Tables, u: UserId, a: Attachment)
    requires Inv(t) && a in t.attachments && OwnsCipher(t, a.cipher, u) && env.quotaKb.Some?
    ensures (exists size: nat :: Overshoots(env, t, u, a, size)) <==> SaturatedRoom(env, t, u, a)
  {
    if SaturatedRoom(env, t, u, a) {
      SaturatedRoomOvershoots(env, t, u, a);
    }
    forall size: nat | Overshoots(env, t, u, a, size) ensures SaturatedRoom(env, t, u, a) {
      OvershootsSaturated(env, t, u, a, size);
    }
  }

  lemma SaturatedRoomOvershoots(env: Env, t: Tables, u: UserId, a: Attachment)
    requires Inv(t) && a in t.attachments && OwnsCipher(t, a.cipher, u) && env.quotaKb.Some?
    requires SaturatedRoom(env, t, u, a)
    ensures Overshoots(env, t, u, a, Quota(env.quotaKb.value) - I64_MAX + a.size)
  {
    var size: nat := Quota(env.quotaKb.value) - I64_MAX + a.size;
    assert QuotaError(env, t, u, a.size, size).None?;
    assert StoreUpload(env, t, u, Some(a), a.cipher, None, None, size).1.Done?;
    StoredAfter(env, t, u, Some(a), a.cipher, None, None, size);
  }

  lemma OvershootsSaturated(env: Env, t: Tables, u: UserId, a: Attachment, size: nat)
    requires Inv(t) && a in t.attachments && OwnsCipher(t, a.cipher, u) && env.quotaKb.Some?
    requires Overshoots(env, t, u, a, size)
    ensures SaturatedRoom(env, t, u, a)
  {
    NeverNegative(t, u);
    StoredAfter(env, t, u, Some(a), a.cipher, None, None, size);
    if !env.wideSums || StoredSize(t, u) <= I64_MAX {
      QuotaHolds(env, t, u, Some(a), a.cipher, None, None, size);
    }
  }

  const HALF: nat := 0x4000_0000_0000_0000

  /** One cipher with three announced attachments of which nothing was uploaded: 4 EiB, 4 EiB and 1 KiB. */
  function Announced(people: People): Tables {
    Tables(map[0 := Cipher(Some("u"), 1, Payload(None, "", None, None, "", None, None), 0, None)], map[], [], {}, map[],
           [Attachment(1, 0, "a", HALF, None), Attachment(2, 0, "b", HALF, None), Attachment(3, 0, "c", 1024, None)], people, 4)
  }

  lemma AnnouncedSum(people: People)
    ensures Inv(Announced(people)) && StoredSize(Announced(people), "u") == I64_MAX + 1025
  {
    hide Without;
    var atts := Announced(people).attachments;
    assert CiphersOf(Announced(people), "u") == {0};
    TotalSizeSnoc([], atts[0], {0});
    TotalSizeSnoc([atts[0]], atts[1], {0});
    TotalSizeSnoc([atts[0], atts[1]], atts[2], {0});
    assert [] + [atts[0]] == [atts[0]] && [atts[0]] + [atts[1]] == [atts[0], atts[1]];
    assert [atts[0], atts[1]] + [atts[2]] == atts;
  }

  /** With unbounded sums and the largest limit the configuration accepts, an upload of a single byte is accepted beyond the limit. */
  lemma LargestLimitBroken(env: Env, people: People)
    requires env.quotaKb == Some(I64_MAX / 1024) && env.wideSums
    ensures var t := Announced(people);
      var (t', o) := StoreUpload(env, t, "u", Some(t.attachments[2]), 0, None, None, 1);
      Inv(t) && o.Done? && StoredSize(t', "u") == Quota(I64_MAX / 1024) + 1025
  {
    hide Inv, TotalSize, StoreUpload;
    var t := Announced(people);
    AnnouncedSum(people);
    SaturatedRoomOvershoots(env, t, "u", t.attachments[2]);
    StoredAfter(env, t, "u", Some(t.attachments[2]), 0, None, None, 1);
  }

  // ---------- the requests ----------

  /** The user's own cipher. */
  predicate Own(t: Tables, u: UserId, c: Id) { c in t.ciphers && t.ciphers[c].owner == Some(u) }

  /** The limit leaves room for an upload that replaces an announced size, in checked 64-bit arithmetic. */
  predicate Room(env: Env, used: int, announced: int, size: nat) {
    match env.quotaKb
    case None => true
    case Some(limitKb) =>
      var limit := limitKb * 1024;
      var seen := if used <= 0x7fff_ffff_ffff_ffff then used else 0x7fff_ffff_ffff_ffff;
      && limitKb != 0 && (used <= 0x7fff_ffff_ffff_ffff || env.wideSums)
      && Fits(limit) && Fits(limit - seen) && Fits(limit - seen + announced)
      && 0 < limit - seen + announced && size <= limit - seen + announced
  }

  predicate Fits(x: int) { -0x8000_0000_0000_0000 <= x <= 0x7fff_ffff_ffff_ffff }

  lemma AddedAtTheEnd(t: Tables)
    requires Inv(t)
    ensures Without(t.attachments, WithId(t.attachments, t.next)) == t.attachments
  {
    WithoutNone(t.attachments, WithId(t.attachments, t.next));
  }

  /** An announcement succeeds exactly for an own cipher and a size a 64-bit column holds; a refusal does nothing. */
  lemma AnnounceExact(env: Env, t: Tables, u: UserId, c: Id, fileName: string, key: string, size: int)
    requires Inv(t)
    ensures var (t', o) := Perform(env, t, u, Announce(c, fileName, key, size));
      && (o.Done? <==> Own(t, u, c) && 0 <= size <= 0x7fff_ffff_ffff_ffff)
      && (o.Fail? ==> t' == t)
      && (o.Done? ==> t' == t.(attachments := t.attachments + [Attachment(t.next, c, fileName, size, Some(key))], next := t.next + 1))
  {
    hide Inv, Without;
    AddedAtTheEnd(t);
  }

  /** A removal succeeds exactly for an attachment that is there, on the cipher named, which is the user's; it takes that row and no other. */
  lemma RemoveExact(env: Env, t: Tables, u: UserId, c: Id, id: Id)
    requires Inv(t)
    ensures var (t', o) := Perform(env, t, u, RemoveAttachment(c, id));
      && (o.Done? <==> Own(t, u, c) && exists a :: a in t.attachments && a.id == id && a.cipher == c)
      && (o.Fail? ==> t' == t)
      && (o.Done? ==> t' == t.(attachments := t'.attachments) && forall a :: a in t'.attachments <==> a in t.attachments && a.id != id)
  {
    forall a | a in t.attachments && a.id == id ensures FindAttachment(t.attachments, id) == Some(a) {
      FindById(t.attachments, a);
    }
  }

  lemma OwnQuota(env: Env, t: Tables, u: UserId, announced: int, size: nat)
    requires Inv(t)
    ensures QuotaError(env, t, u, announced, size).None? <==> Room(env, StoredSize(t, u), announced, size)
  {
    NeverNegative(t, u);
    hide StoredSize;
  }

  /** Only the row with this id differs: it has another size, or is gone. */
  ghost predicate Resized(t: Tables, t': Tables, a: Attachment, size: nat) {
    && t' == t.(attachments := t'.attachments)
    && forall x :: x in t'.attachments <==> x == a.(size := size) || (x in t.attachments && x.id != a.id)
  }

  ghost predicate OnlyGone(t: Tables, t': Tables, a: Attachment) {
    t' == t.(attachments := t'.attachments) && forall x :: x in t'.attachments <==> x in t.attachments && x.id != a.id
  }

  /** What separates the announced from the actual size at most. */
  predicate Near(announced: int, size: nat) { announced - 1048576 <= size <= announced + 1048576 }

  lemma AnnouncedExact(t: Tables, a: Attachment, size: nat)
    requires a in t.attachments && a.size >= 0 && forall x :: x in t.attachments && x.id == a.id ==> x == a
    ensures var (t', o) := StoreAnnounced(t, a, size);
      && (o.Done? <==> Fits(a.size + 1048576) && Near(a.size, size))
      && (o.Done? ==> Resized(t, t', a, size))
      && (o.Fail? ==> if Fits(a.size + 1048576) then o.error == SizeMismatch && OnlyGone(t, t', a) else t' == t)
  {
    hide Without;
  }

  /**
    The second half of an announced upload, for an attachment that is there: it
    succeeds exactly on the user's own cipher, with room under the limit, near
    the announced size; then the row has the actual size. A size not near takes
    the row away, any other refusal does nothing.
   */
  lemma UploadExact(env: Env, t: Tables, u: UserId, c: Id, a: Attachment, size: nat)
    requires Inv(t) && a in t.attachments
    ensures var (t', o) := Perform(env, t, u, Upload(c, a.id, size));
      var admitted := a.cipher == c && Own(t, u, c) && Fits(size) && Room(env, StoredSize(t, u), a.size, size) && Fits(a.size + 1048576);
      && (o.Done? <==> admitted && Near(a.size, size))
      && (o.Done? ==> Resized(t, t', a, size))
      && (o.Fail? ==> if admitted then o.error == SizeMismatch && OnlyGone(t, t', a) else t' == t)
  {
    assert a.size >= 0;
    FindById(t.attachments, a);
    hide Inv, QuotaError, StoredSize, Room, StoreAnnounced, Resized, OnlyGone;
    UniqueId(t, a);
    OwnQuota(env, t, u, a.size, size);
    AnnouncedExact(t, a, size);
  }

  /** An upload to nothing announced finds nothing. */
  lemma NothingAnnounced(env: Env, t: Tables, u: UserId, c: Id, id: Id, size: nat)
    requires forall a :: a in t.attachments ==> a.id != id
    ensures Perform(env, t, u, Upload(c, id, size)) == (t, Fail(NotFound)) && Perform(env, t, u, RemoveAttachment(c, id)) == (t, Fail(NotFound))
  {
  }

  /** A one-step upload succeeds exactly on the user's own cipher, with a name, a key and room; it adds the one row. */
  lemma LegacyExact(env: Env, t: Tables, u: UserId, c: Id, fileName: Option<string>, key: Option<string>, size: nat)
    requires Inv(t)
    ensures var (t', o) := Perform(env, t, u, UploadLegacy(c, fileName, key, size));
      && (o.Done? <==> Own(t, u, c) && fileName.Some? && key.Some? && Fits(size) && Room(env, StoredSize(t, u), 0, size))
      && (o.Fail? ==> t' == t)
      && (o.Done? ==> t' == t.(attachments := t.attachments + [Attachment(t.next, c, fileName.value, size, key)], next := t.next + 1))
  {
    hide Inv, QuotaError, StoredSize, Room, Without;
    OwnQuota(env, t, u, 0, size);
    AddedAtTheEnd(t);
  }

  /**
    With a limit that is a byte count and a sum that fits: there is room exactly
    when something is left without the announced size, and the sum after the
    upload is within the limit.
   */
  lemma RoomIsTheLimit(env: Env, used: int, announced: int, size: nat)
    requires env.quotaKb.Some? && 0 < env.quotaKb.value <= 0x7fff_ffff_ffff_ffff / 1024
    requires 0 <= announced <= used <= 0x7fff_ffff_ffff_ffff
    ensures Room(env, used, announced, size) <==>
      used - announced < env.quotaKb.value * 1024 && used - announced + size <= env.quotaKb.value * 1024
  {
  }

  // ---------- what a refusal says ----------

  /** The checks on the limit, with the arithmetic each can fail in. */
  function LimitChecks(env: Env, used: int, announced: int, size: nat): seq<(bool, Error)> {
    match env.quotaKb
    case None => []
    case Some(limitKb) =>
      var limit := limitKb * 1024;
      var seen := if used <= 0x7fff_ffff_ffff_ffff then used else 0x7fff_ffff_ffff_ffff;
      [(limitKb != 0, AttachmentsDisabled), (used <= 0x7fff_ffff_ffff_ffff || env.wideSums, SumOverflow),
       (Fits(limit) && Fits(limit - seen) && Fits(limit - seen + announced), SizeOverflow),
       (0 < limit - seen + announced, LimitReached), (size <= limit - seen + announced, LimitExceeded)]
  }

  function FirstChecks(t: Tables, u: UserId, c: Id, a: Attachment, size: nat): (r: seq<(bool, Error)>)
    ensures |r| == 4
  {
    [(a.cipher == c, WrongCipher), (Fits(size), SizeOverflow)] + CipherChecks(t, u, c)
  }

  function LastChecks(a: Attachment, size: nat): (r: seq<(bool, Error)>)
    ensures |r| == 2
  {
    [(Fits(a.size + 1048576), InvalidBounds), (Near(a.size, size), SizeMismatch)]
  }

  function UploadChecks(env: Env, t: Tables, u: UserId, c: Id, a: Attachment, size: nat): seq<(bool, Error)> {
    FirstChecks(t, u, c, a, size) + LimitChecks(env, StoredSize(t, u), a.size, size) + LastChecks(a, size)
  }

  lemma FirstRefusalNamed(env: Env, t: Tables, u: UserId, c: Id, a: Attachment, size: nat, i: nat)
    requires Inv(t) && a in t.attachments && FirstFails(FirstChecks(t, u, c, a, size), i)
    ensures Perform(env, t, u, Upload(c, a.id, size)).1 == Fail(FirstChecks(t, u, c, a, size)[i].1)
  {
    FindById(t.attachments, a);
    var checks := FirstChecks(t, u, c, a, size);
    hide QuotaError;
    assert i > 0 ==> checks[0].0;
    assert i > 1 ==> checks[1].0;
    assert i > 2 ==> checks[2].0;
  }

  lemma FirstPassed(env: Env, t: Tables, u: UserId, c: Id, a: Attachment, size: nat)
    requires Inv(t) && a in t.attachments && forall j :: 0 <= j < 4 ==> FirstChecks(t, u, c, a, size)[j].0
    ensures Perform(env, t, u, Upload(c, a.id, size)) ==
      match QuotaError(env, t, u, a.size, size)
      case Some(e) => (t, Fail(e))
      case None => StoreAnnounced(t, a, size)
  {
    FindById(t.attachments, a);
    var checks := FirstChecks(t, u, c, a, size);
    assert checks[0].0 && checks[1].0 && checks[2].0 && checks[3].0;
    hide QuotaError, StoreAnnounced;
  }

  lemma LastRefusalNamed(t: Tables, a: Attachment, size: nat, i: nat)
    requires a.size >= 0 && FirstFails(LastChecks(a, size), i)
    ensures StoreAnnounced(t, a, size).1 == Fail(LastChecks(a, size)[i].1)
  {
    assert i > 0 ==> LastChecks(a, size)[0].0;
  }

  lemma LimitRefusalNamed(env: Env, t: Tables, u: UserId, announced: int, size: nat, i: nat)
    requires Inv(t) && FirstFails(LimitChecks(env, StoredSize(t, u), announced, size), i)
    ensures QuotaError(env, t, u, announced, size) == Some(LimitChecks(env, StoredSize(t, u), announced, size)[i].1)
  {
    NeverNegative(t, u);
    var checks := LimitChecks(env, StoredSize(t, u), announced, size);
    hide StoredSize, Inv;
    assert i > 0 ==> checks[0].0;
    assert i > 1 ==> checks[1].0;
    assert i > 2 ==> checks[2].0;
    assert i > 3 ==> checks[3].0;
  }

  lemma LimitPassed(env: Env, t: Tables, u: UserId, announced: int, size: nat)
    requires Inv(t) && var checks := LimitChecks(env, StoredSize(t, u), announced, size); forall j :: 0 <= j < |checks| ==> checks[j].0
    ensures QuotaError(env, t, u, announced, size).None?
  {
    var checks := LimitChecks(env, StoredSize(t, u), announced, size);
    OwnQuota(env, t, u, announced, size);
    hide StoredSize, Inv, QuotaError;
    if env.quotaKb.Some? {
      assert checks[0].0 && checks[1].0 && checks[2].0 && checks[3].0 && checks[4].0;
    }
  }

  /** A refused upload answers for the first check that fails: cipher, size, owner, limit, announced size. */
  lemma UploadRefusalNamed(env: Env, t: Tables, u: UserId, c: Id, a: Attachment, size: nat, i: nat)
    requires Inv(t) && a in t.attachments && FirstFails(UploadChecks(env, t, u, c, a, size), i)
    ensures Perform(env, t, u, Upload(c, a.id, size)).1 == Fail(UploadChecks(env, t, u, c, a, size)[i].1)
  {
    assert a.size >= 0;
    hide Perform, StoredSize, QuotaError, FirstChecks, LimitChecks, LastChecks, Inv, StoreAnnounced;
    var first, limits, last := FirstChecks(t, u, c, a, size), LimitChecks(env, StoredSize(t, u), a.size, size), LastChecks(a, size);
    var n, checks := |limits|, UploadChecks(env, t, u, c, a, size);
    assert forall j :: 0 <= j < 4 ==> checks[j] == first[j];
    assert forall j :: 0 <= j < n ==> checks[4 + j] == limits[j];
    assert forall j :: 0 <= j < 2 ==> checks[4 + n + j] == last[j];
    if i < 4 {
      FirstRefusalNamed(env, t, u, c, a, size, i);
    } else {
      FirstPassed(env, t, u, c, a, size);
      if i < 4 + n {
        LimitRefusalNamed(env, t, u, a.size, size, i - 4);
      } else {
        LimitPassed(env, t, u, a.size, size);
        LastRefusalNamed(t, a, size, i - 4 - n);
      }
    }
  }

  /** So do a refused announcement and a refused removal. */
  lemma AnnounceRefusalNamed(env: Env, t: Tables, u: UserId, c: Id, fileName: string, key: string, claimed: int, i: nat)
    requires FirstFails(CipherChecks(t, u, c) + [(Fits(claimed), SizeOverflow), (0 <= claimed, NegativeSize)], i)
    ensures var checks := CipherChecks(t, u, c) + [(Fits(claimed), SizeOverflow), (0 <= claimed, NegativeSize)];
      Perform(env, t, u, Announce(c, fileName, key, claimed)) == (t, Fail(checks[i].1))
  {
    var checks := CipherChecks(t, u, c) + [(Fits(claimed), SizeOverflow), (0 <= claimed, NegativeSize)];
    assert i > 0 ==> checks[0].0;
    assert i > 1 ==> checks[1].0;
    assert i > 2 ==> checks[2].0;
  }

  lemma RemovalRefusalNamed(env: Env, t: Tables, u: UserId, c: Id, a: Attachment, i: nat)
    requires Inv(t) && a in t.attachments && FirstFails([(a.cipher == c, WrongCipher)] + CipherChecks(t, u, c), i)
    ensures Perform(env, t, u, RemoveAttachment(c, a.id)) == (t, Fail(([(a.cipher == c, WrongCipher)] + CipherChecks(t, u, c))[i].1))
  {
    FindById(t.attachments, a);
    var checks := [(a.cipher == c, WrongCipher)] + CipherChecks(t, u, c);
    assert i > 0 ==> checks[0].0;
    assert i > 1 ==> checks[1].0;
  }
}
