/** The expiry sweep (app/api/cronjobs/delete-file/route.ts, `GET`): lists the
    bucket, reads the expiry time out of every name, and removes the expired
    objects in one batch. */
module Sweep {
  import opened Text
  import Upload

  /** `limit: 1000` of the listing call: only the first page is swept. */
  const PageSize: nat := 1000

  /** `Number(field)` where the sweep expects the expiry time: a run of
      decimal digits reads as its value (the empty run as 0, as `Number("")`
      does) and anything else is not a number. */
  function FieldNumber(field: Utf16): (r: Option<nat>)
    ensures r.Some? <==> AllDigits(field)
  {
    if AllDigits(field) then Some(DigitsValue(field)) else None
  }

  /** The expiry time the sweep reads from a name: field 1 of its
      `-`-separated fields, when it has at least three. */
  function ExpiryOf(name: Utf16): (r: Option<nat>)
    // only a name holding at least two `-` can carry an expiry time
    ensures r.Some? ==> multiset(name)[Dash] >= 2
  {
    SplitCount(name, Dash);
    var parts := Split(name, Dash);
    if |parts| < 3 then None else FieldNumber(parts[1])
  }

  /** `now > expireAt`, for a name that has an expiry time. */
  predicate IsExpired(name: Utf16, now: nat)
    // an expired name has an expiry time, and some time has passed since 0
    ensures IsExpired(name, now) ==> ExpiryOf(name).Some? && now > 0
  {
    ExpiryOf(name).Some? && now > ExpiryOf(name).value
  }

  /** The expired names of `names`, in listing order. */
  function Expired(names: seq<Utf16>, now: nat): (batch: seq<Utf16>)
    ensures |batch| <= |names|
    ensures forall name :: name in batch ==> IsExpired(name, now)
  {
    if names == [] then []
    else
      var last := names[|names| - 1];
      Expired(names[..|names| - 1], now) + (if IsExpired(last, now) then [last] else [])
  }

  /** The names of `names` not in `drop`, in order. */
  function Without(names: seq<Utf16>, drop: seq<Utf16>): (r: seq<Utf16>)
    ensures |r| <= |names|
  {
    if names == [] then []
    else
      var last := names[|names| - 1];
      Without(names[..|names| - 1], drop) + (if last in drop then [] else [last])
  }

  /** The names of `keys` that are in `present`, in order. */
  function Within(keys: seq<Utf16>, present: seq<Utf16>): (r: seq<Utf16>)
    ensures |r| <= |keys|
  {
    if keys == [] then []
    else
      var last := keys[|keys| - 1];
      Within(keys[..|keys| - 1], present) + (if last in present then [last] else [])
  }

  /** The first page of a listing. */
  function Page(names: seq<Utf16>): (r: seq<Utf16>)
    ensures |r| <= PageSize && r <= names
    ensures |names| <= PageSize ==> r == names
    ensures |names| > PageSize ==> |r| == PageSize
  {
    if |names| <= PageSize then names else names[..PageSize]
  }

  /** The loop of `GET` that fills `expiredFiles`: split each name on `-`,
      skip it with fewer than three fields or a non-numeric field 1, and
      keep it when `now > expireAt`. */
  method CollectExpired(names: seq<Utf16>, now: nat) returns (expiredFiles: seq<Utf16>)
    ensures expiredFiles == Expired(names, now)
    ensures forall name :: name in expiredFiles <==> name in names && IsExpired(name, now)
  {
    expiredFiles := [];
    for i := 0 to |names|
      invariant expiredFiles == Expired(names[..i], now)
    {
      assert names[..i + 1][..i] == names[..i];
      var fileName := names[i];
      var parts := Split(fileName, Dash);
      if |parts| < 3 {
        continue;
      }
      var expireAt := FieldNumber(parts[1]);
      if expireAt.None? {
        continue;
      }
      if now > expireAt.value {
        expiredFiles := expiredFiles + [fileName];
      }
    }
    assert names[..|names|] == names;
    ExpiredMembers(names, now);
  }

  /** A name is in the batch exactly when it is listed and expired. */
  lemma {:induction false} ExpiredMembers(names: seq<Utf16>, now: nat)
    ensures forall name :: name in Expired(names, now) <==> name in names && IsExpired(name, now)
  {
    if names != [] {
      var init := names[..|names| - 1];
      ExpiredMembers(init, now);
      assert names == init + [names[|names| - 1]];
    }
  }

  /** A listing in which no name is expired gives an empty batch. */
  lemma {:induction false} NothingExpired(names: seq<Utf16>, now: nat)
    requires forall name :: name in names ==> !IsExpired(name, now)
    ensures Expired(names, now) == []
  {
    if names != [] {
      NothingExpired(names[..|names| - 1], now);
    }
  }

  /** A name is removed exactly when it is listed and not dropped. */
  lemma {:induction false} WithoutMembers(names: seq<Utf16>, drop: seq<Utf16>)
    ensures forall name :: name in Without(names, drop) <==> name in names && name !in drop
  {
    if names != [] {
      var init := names[..|names| - 1];
      WithoutMembers(init, drop);
      assert names == init + [names[|names| - 1]];
    }
  }

  /** Keys all present are all reported back. */
  lemma {:induction false} WithinAllPresent(keys: seq<Utf16>, present: seq<Utf16>)
    requires forall k :: k in keys ==> k in present
    ensures Within(keys, present) == keys
  {
    if keys != [] {
      var init := keys[..|keys| - 1];
      assert keys == init + [keys[|keys| - 1]];
      WithinAllPresent(init, present);
    }
  }

  /** A key is reported exactly when it was asked for and present. */
  lemma {:induction false} WithinMembers(keys: seq<Utf16>, present: seq<Utf16>)
    ensures forall name :: name in Within(keys, present) <==> name in keys && name in present
  {
    if keys != [] {
      var init := keys[..|keys| - 1];
      WithinMembers(init, present);
      assert keys == init + [keys[|keys| - 1]];
    }
  }

  /** A remove that fails part-way deletes only names of its batch: every
      other object stays. */
  lemma FailedRemoveKeepsOthers(objects: seq<Utf16>, batch: seq<Utf16>, partialRemoval: seq<Utf16>)
    ensures forall name :: name in Without(objects, Within(batch, partialRemoval)) <==>
      name in objects && (name !in batch || name !in partialRemoval)
  {
    WithinMembers(batch, partialRemoval);
    WithoutMembers(objects, Within(batch, partialRemoval));
  }

  /** `idx` picks the elements of `batch` out of `names` at increasing
      positions. */
  ghost predicate PicksInOrder(idx: seq<nat>, batch: seq<Utf16>, names: seq<Utf16>)
  {
    && |idx| == |batch|
    && (forall k :: 0 <= k < |idx| ==> idx[k] < |names| && batch[k] == names[idx[k]])
    && (forall k, l :: 0 <= k < l < |idx| ==> idx[k] < idx[l])
  }

  /** The batch is a subsequence of the listing, in listing order. */
  lemma {:induction false} ExpiredInListingOrder(names: seq<Utf16>, now: nat)
    ensures exists idx :: PicksInOrder(idx, Expired(names, now), names)
  {
    if names == [] {
      assert PicksInOrder([], Expired(names, now), names);
    } else {
      var n := |names| - 1;
      var init := names[..n];
      ExpiredInListingOrder(init, now);
      var idx :| PicksInOrder(idx, Expired(init, now), init);
      if IsExpired(names[n], now) {
        assert PicksInOrder(idx + [n], Expired(names, now), names);
      } else {
        assert PicksInOrder(idx, Expired(names, now), names);
      }
    }
  }

  /** A name joins the batch exactly when it has at least three fields, field
      1 is a number, and `now` is strictly past it: a name expiring at `now`
      itself is kept. */
  lemma SelectedExactly(names: seq<Utf16>, now: nat, name: Utf16)
    ensures name in Expired(names, now) <==>
      && name in names
      && |Split(name, Dash)| >= 3
      && AllDigits(Split(name, Dash)[1])
      && now > DigitsValue(Split(name, Dash)[1])
    ensures ExpiryOf(name) == Some(now) ==> name !in Expired(names, now)
  {
    ExpiredMembers(names, now);
  }

  /** Sweeping what a sweep left behind finds nothing more to delete. */
  lemma SweepIdempotent(names: seq<Utf16>, now: nat)
    ensures Expired(Without(names, Expired(names, now)), now) == []
  {
    var batch := Expired(names, now);
    var rest := Without(names, batch);
    ExpiredMembers(names, now);
    WithoutMembers(names, batch);
    NothingExpired(rest, now);
  }

  /** A key written by the upload route is swept exactly when `now` is past
      the expiry time in it, whatever the original name held. */
  lemma UploadedKeySwept(uploadedAt: nat, expireAt: nat, originalName: Utf16, now: nat)
    ensures ExpiryOf(Upload.FileKey(uploadedAt, expireAt, Upload.Sanitize(originalName))) == Some(expireAt)
    ensures IsExpired(Upload.FileKey(uploadedAt, expireAt, Upload.Sanitize(originalName)), now) <==> now > expireAt
  {
    Upload.KeyFields(uploadedAt, expireAt, Upload.Sanitize(originalName));
    DecimalRoundTrip(expireAt);
  }

  /** A name with an empty field 1 ("1--x") reads as expiring at 0, since
      `Number("")` is 0, and is swept at any later time. */
  lemma EmptyExpiryFieldReadsAsZero(before: Utf16, after: Utf16, now: nat)
    requires Dash !in before
    requires now > 0
    ensures IsExpired(before + [Dash, Dash] + after, now)
  {
    assert before + [Dash, Dash] + after == before + [Dash] + ([] + [Dash] + after);
    SplitAfterField(before, Dash, [] + [Dash] + after);
    SplitAfterField([], Dash, after);
  }

  /** A string without the separator splits into itself alone. */
  lemma {:induction false} SplitWithoutSeparator(s: Utf16, sep: CodeUnit)
    requires sep !in s
    ensures Split(s, sep) == [s]
  {
    if s != [] {
      SplitWithoutSeparator(s[1..], sep);
      assert s[0] != sep;
      assert [s[0]] + s[1..] == s;
    }
  }

  /** Three stored names, one expired a second ago, one expiring in a second
      and one with no fields: only the first is swept. */
  lemma SweepExample(uploadedAt: nat, first: Utf16, second: Utf16, malformed: Utf16, now: nat)
    requires now >= 1000
    requires Dash !in malformed
    ensures var expired := Upload.FileKey(uploadedAt, now - 1000, Upload.Sanitize(first));
      var live := Upload.FileKey(uploadedAt, now + 1000, Upload.Sanitize(second));
      Expired([expired, live, malformed], now) == [expired]
  {
    var expired := Upload.FileKey(uploadedAt, now - 1000, Upload.Sanitize(first));
    var live := Upload.FileKey(uploadedAt, now + 1000, Upload.Sanitize(second));
    UploadedKeySwept(uploadedAt, now - 1000, first, now);
    UploadedKeySwept(uploadedAt, now + 1000, second, now);
    SplitWithoutSeparator(malformed, Dash);
    assert !IsExpired(malformed, now);
    var one: seq<Utf16> := [expired];
    assert Expired(one, now) == [expired] by {
      assert one[..0] == [];
    }
    var two: seq<Utf16> := [expired, live];
    assert Expired(two, now) == [expired] by {
      assert two[..1] == one;
    }
    var three: seq<Utf16> := [expired, live, malformed];
    assert three[..2] == two;
  }

  /** What `GET` answers. */
  datatype SweepResult =
    | ListFailed       // 500, "Failed to list files"
    | DeleteFailed     // 500, "Failed to delete some files"
    | NothingToDelete  // 200, "No expired files to delete"
    | Deleted(deleted: seq<Utf16>, count: nat)
  {
    function Status(): nat
    {
      if ListFailed? || DeleteFailed? then 500 else 200
    }
  }

  /** The storage bucket as the sweep sees it: the names it lists, in
      listing order, whether listing or removing fails, the names a failing
      remove still deletes, and the log of the remove calls made on it. */
  class Bucket {
    var objects: seq<Utf16>
    var listFails: bool
    var removeFails: bool
    var partialRemoval: seq<Utf16>
    var removeCalls: seq<seq<Utf16>>

    constructor (objects: seq<Utf16>, listFails: bool, removeFails: bool, partialRemoval: seq<Utf16>)
      ensures this.objects == objects && this.listFails == listFails && this.removeFails == removeFails
      ensures this.partialRemoval == partialRemoval && removeCalls == []
    {
      this.objects := objects;
      this.listFails := listFails;
      this.removeFails := removeFails;
      this.partialRemoval := partialRemoval;
      removeCalls := [];
    }

    /** `list("", { limit: 1000, offset: 0 })`: the first page, or an error. */
    function List(): (r: Option<seq<Utf16>>)
      reads this
      ensures r.None? <==> listFails
      ensures r.Some? ==> |r.value| <= PageSize && r.value <= objects
      ensures r.Some? ==> r.value == Page(objects)
    {
      if listFails then None else Some(Page(objects))
    }

    /** `remove(keys)`: the call is logged. A failing remove reports an error
        but may already have deleted some of the keys, those named in
        `partialRemoval`; otherwise the objects named are gone and the names
        of those that existed are returned. */
    method Remove(keys: seq<Utf16>) returns (deleted: Option<seq<Utf16>>)
      modifies this
      ensures removeCalls == old(removeCalls) + [keys]
      ensures listFails == old(listFails) && removeFails == old(removeFails)
      ensures partialRemoval == old(partialRemoval)
      ensures old(removeFails) ==>
        deleted.None? && objects == Without(old(objects), Within(keys, old(partialRemoval)))
      ensures !old(removeFails) ==>
        deleted == Some(Within(keys, old(objects))) && objects == Without(old(objects), keys)
    {
      removeCalls := removeCalls + [keys];
      if removeFails {
        deleted := None;
        objects := Without(objects, Within(keys, partialRemoval));
      } else {
        deleted := Some(Within(keys, objects));
        objects := Without(objects, keys);
      }
    }
  }

  /** `GET`, with `Date.now()` as `now`. */
  method RunSweep(bucket: Bucket, now: nat) returns (result: SweepResult)
    modifies bucket
    ensures bucket.listFails == old(bucket.listFails) && bucket.removeFails == old(bucket.removeFails)
    ensures bucket.partialRemoval == old(bucket.partialRemoval)
    // 500 exactly when the listing fails, or when there is a batch and its remove fails
    ensures result.Status() == 500 <==>
      old(bucket.listFails) || (Expired(Page(old(bucket.objects)), now) != [] && old(bucket.removeFails))
    // a failed listing aborts: no remove call, nothing changes
    ensures old(bucket.listFails) ==>
      result == ListFailed && bucket.removeCalls == old(bucket.removeCalls) && bucket.objects == old(bucket.objects)
    ensures !old(bucket.listFails) ==>
      var batch := Expired(Page(old(bucket.objects)), now);
      // nothing expired: no remove call at all
      && (batch == [] ==>
            result == NothingToDelete && bucket.removeCalls == old(bucket.removeCalls)
            && bucket.objects == old(bucket.objects))
      // otherwise exactly one remove call, with the whole batch
      && (batch != [] ==> bucket.removeCalls == old(bucket.removeCalls) + [batch])
      && (batch != [] && old(bucket.removeFails) ==>
            result == DeleteFailed
            && bucket.objects == Without(old(bucket.objects), Within(batch, old(bucket.partialRemoval))))
      && (batch != [] && !old(bucket.removeFails) ==>
            result == Deleted(batch, |batch|) && bucket.objects == Without(old(bucket.objects), batch))
  {
    var files := bucket.List();
    if files.None? {
      return ListFailed;
    }
    var expiredFiles := CollectExpired(files.value, now);
    if |expiredFiles| > 0 {
      ghost var listed := bucket.objects;
      var deleted := bucket.Remove(expiredFiles);
      if deleted.None? {
        return DeleteFailed;
      }
      forall k | k in expiredFiles ensures k in listed {
        assert k in files.value;
        assert files.value == listed[..|files.value|];
      }
      WithinAllPresent(expiredFiles, listed);
      return Deleted(deleted.value, |deleted.value|);
    }
    return NothingToDelete;
  }

  /** Two sweeps at the same time over a bucket that fits in one page: once
      the first has deleted (or found nothing), the second finds nothing. */
  method SweepTwice(bucket: Bucket, now: nat) returns (first: SweepResult, second: SweepResult)
    requires |bucket.objects| <= PageSize
    modifies bucket
    ensures first.Deleted? || first == NothingToDelete ==> second == NothingToDelete
    ensures first == ListFailed <==> second == ListFailed
  {
    first := RunSweep(bucket, now);
    if first.Deleted? {
      SweepIdempotent(old(bucket.objects), now);
    }
    second := RunSweep(bucket, now);
  }
}
