/**
 * The read path over the sensor table: `filter_by(device_id=...)`, ordered
 * by timestamp descending, then `.first()` for the latest reading
 * (app.py:85) or `.limit(100)` for the history (app.py:94).
 *
 * The database does not specify the order of readings with equal
 * timestamps; the functions here pick one, and the contracts and lemmas
 * below do not depend on which.
 */
module Queries {
  import opened Wrappers
  import opened Records

  const HistoryLimit: nat := 100

  /** `filter_by(device_id=d)`: the readings of device `d`, in table order. */
  function ForDevice(rs: seq<Reading>, d: string): (f: seq<Reading>)
    ensures |f| <= |rs|
    ensures forall i :: 0 <= i < |f| ==> f[i].deviceId == d
    decreases |rs|
  {
    if rs == [] then [] else (if rs[0].deviceId == d then [rs[0]] else []) + ForDevice(rs[1..], d)
  }

  /** The readings of `d` are those of `rs` whose device is `d`, each as often as in `rs`, and no others. */
  lemma {:induction false} ForDeviceMultiset(rs: seq<Reading>, d: string)
    ensures forall x :: multiset(ForDevice(rs, d))[x] == if x.deviceId == d then multiset(rs)[x] else 0
    decreases |rs|
  {
    if rs != [] {
      assert rs == [rs[0]] + rs[1..];
      ForDeviceMultiset(rs[1..], d);
    }
  }

  /** Timestamps never increase along `s`: the newest reading comes first. */
  predicate NewestFirst(s: seq<Reading>) {
    forall i, j :: 0 <= i < j < |s| ==> s[i].timestamp >= s[j].timestamp
  }

  /** Puts `x` into a newest-first sequence, keeping it newest first. */
  function InsertByTime(x: Reading, s: seq<Reading>): (r: seq<Reading>)
    requires NewestFirst(s)
    ensures NewestFirst(r)
    ensures multiset(r) == multiset(s) + multiset{x}
    decreases |s|
  {
    if s == [] || s[0].timestamp <= x.timestamp then
      [x] + s
    else
      var rest := InsertByTime(x, s[1..]);
      assert s == [s[0]] + s[1..];
      forall y | y in rest ensures y.timestamp <= s[0].timestamp {
        assert y in multiset(rest);
        if y != x {
          assert y in multiset(s[1..]);
          var k :| 0 <= k < |s[1..]| && s[1..][k] == y;
          assert s[k + 1] == y;
        }
      }
      PrependNewest(s[0], rest);
      [s[0]] + rest
  }

  /** A reading at least as new as every reading of a newest-first sequence may go in front of it. */
  lemma PrependNewest(x: Reading, s: seq<Reading>)
    requires NewestFirst(s)
    requires forall y :: y in s ==> y.timestamp <= x.timestamp
    ensures NewestFirst([x] + s)
  {
    var r := [x] + s;
    forall i, j | 0 <= i < j < |r| ensures r[i].timestamp >= r[j].timestamp {
      assert r[j] == s[j - 1];
      if i > 0 {
        assert r[i] == s[i - 1];
      }
    }
  }

  /** `order_by(timestamp.desc())`: a newest-first rearrangement of `s`. */
  function SortNewestFirst(s: seq<Reading>): (r: seq<Reading>)
    ensures NewestFirst(r)
    ensures multiset(r) == multiset(s)
    decreases |s|
  {
    if s == [] then
      []
    else
      assert s == [s[0]] + s[1..];
      InsertByTime(s[0], SortNewestFirst(s[1..]))
  }

  /**
   * The latest reading of `d` (app.py:85-88): none exactly when `d` has no
   * reading; otherwise a reading of `d` whose timestamp is at least that of
   * every reading of `d`.
   */
  function Latest(rs: seq<Reading>, d: string): (r: Option<Reading>)
    ensures r.None? <==> forall x :: x in rs ==> x.deviceId != d
    ensures r.Some? ==> r.value in rs && r.value.deviceId == d
    ensures r.Some? ==> forall x :: x in rs && x.deviceId == d ==> x.timestamp <= r.value.timestamp
  {
    var f := ForDevice(rs, d);
    ForDeviceMultiset(rs, d);
    var sorted := SortNewestFirst(f);
    if sorted == [] then
      assert forall x :: x in rs ==> x.deviceId != d by {
        forall x | x in rs ensures x.deviceId != d {
          assert multiset(f)[x] == 0;
        }
      }
      None
    else
      assert sorted[0] in multiset(f);
      assert forall x :: x in rs && x.deviceId == d ==> x.timestamp <= sorted[0].timestamp by {
        forall x | x in rs && x.deviceId == d ensures x.timestamp <= sorted[0].timestamp {
          assert x in multiset(sorted);
          var i :| 0 <= i < |sorted| && sorted[i] == x;
        }
      }
      Some(sorted[0])
  }

  /** Every reading in `s[k..]` is at most as new as every reading in `s[..k]`. */
  lemma OlderAfter(s: seq<Reading>, k: nat)
    requires NewestFirst(s) && k <= |s|
    ensures forall x, y :: x in s[k..] && y in s[..k] ==> x.timestamp <= y.timestamp
  {
    forall x, y | x in s[k..] && y in s[..k] ensures x.timestamp <= y.timestamp {
      var i :| 0 <= i < |s[k..]| && s[k..][i] == x;
      var j :| 0 <= j < k && s[..k][j] == y;
      assert s[k + i] == x && s[j] == y;
    }
  }

  /**
   * The first `k` readings of a newest-first sequence are newest first, and
   * none of the others is newer than any of them.
   */
  lemma TakeNewest(s: seq<Reading>, k: nat)
    requires NewestFirst(s) && k <= |s|
    ensures NewestFirst(s[..k])
    ensures multiset(s[..k]) <= multiset(s)
    ensures forall x, y :: x in multiset(s) - multiset(s[..k]) && y in s[..k] ==> x.timestamp <= y.timestamp
  {
    assert s == s[..k] + s[k..];
    assert multiset(s) == multiset(s[..k]) + multiset(s[k..]);
    OlderAfter(s, k);
    forall x, y | x in multiset(s) - multiset(s[..k]) && y in s[..k]
      ensures x.timestamp <= y.timestamp
    {
      assert x in multiset(s[k..]);
    }
  }

  /**
   * The recent history of `d` (app.py:94-95): at most 100 readings, all of
   * `d` and taken from its readings, newest first, all of them when `d` has
   * at most 100, and no reading left out is newer than a reading returned.
   */
  function History(rs: seq<Reading>, d: string): (h: seq<Reading>)
    ensures |h| == if |ForDevice(rs, d)| <= HistoryLimit then |ForDevice(rs, d)| else HistoryLimit
    ensures forall i :: 0 <= i < |h| ==> h[i].deviceId == d
    ensures multiset(h) <= multiset(ForDevice(rs, d))
    ensures |ForDevice(rs, d)| <= HistoryLimit ==> multiset(h) == multiset(ForDevice(rs, d))
    ensures NewestFirst(h)
    ensures forall x, y :: x in multiset(ForDevice(rs, d)) - multiset(h) && y in h ==> x.timestamp <= y.timestamp
  {
    var f := ForDevice(rs, d);
    var sorted := SortNewestFirst(f);
    var k := if |sorted| <= HistoryLimit then |sorted| else HistoryLimit;
    var h := sorted[..k];
    assert |sorted| == |multiset(sorted)| == |multiset(f)| == |f|;
    assert k == |sorted| ==> h == sorted;
    TakeNewest(sorted, k);
    assert forall i :: 0 <= i < |h| ==> h[i].deviceId == d by {
      forall i | 0 <= i < |h| ensures h[i].deviceId == d {
        assert h[i] in multiset(f);
        assert h[i] in f;
      }
    }
    h
  }

  /**
   * The latest reading and the head of the history agree on what holds
   * whatever order each query gives readings with equal timestamps: one
   * exists exactly when the other does, and they are equally new.
   */
  lemma LatestMatchesHistoryHead(rs: seq<Reading>, d: string)
    ensures Latest(rs, d).Some? <==> History(rs, d) != []
    ensures Latest(rs, d).Some? ==> Latest(rs, d).value.timestamp == History(rs, d)[0].timestamp
  {
    HistoryEmptyIffNoReading(rs, d);
    var l, h := Latest(rs, d), History(rs, d);
    if l.Some? {
      HistoryFromTable(rs, d);
      assert h[0] in rs && h[0].deviceId == d;
    }
  }

  /** Appending a reading adds it to its own device's readings and to no other's. */
  lemma {:induction false} ForDeviceAppend(rs: seq<Reading>, r: Reading, d: string)
    ensures ForDevice(rs + [r], d) == ForDevice(rs, d) + (if r.deviceId == d then [r] else [])
    decreases |rs|
  {
    if rs == [] {
      assert ForDevice([r], d) == (if r.deviceId == d then [r] else []) + ForDevice([], d);
    } else {
      var head := if rs[0].deviceId == d then [rs[0]] else [];
      var tail := if r.deviceId == d then [r] else [];
      assert (rs + [r])[0] == rs[0] && (rs + [r])[1..] == rs[1..] + [r];
      ForDeviceAppend(rs[1..], r, d);
      calc {
        ForDevice(rs + [r], d);
        head + ForDevice(rs[1..] + [r], d);
        head + (ForDevice(rs[1..], d) + tail);
        (head + ForDevice(rs[1..], d)) + tail;
        ForDevice(rs, d) + tail;
      }
    }
  }

  /** A new reading of one device changes neither the latest reading nor the history of another. */
  lemma AppendKeepsOtherDevices(rs: seq<Reading>, r: Reading, d: string)
    requires r.deviceId != d
    ensures Latest(rs + [r], d) == Latest(rs, d)
    ensures History(rs + [r], d) == History(rs, d)
  {
    ForDeviceAppend(rs, r, d);
    assert ForDevice(rs + [r], d) == ForDevice(rs, d);
  }

  /**
   * A reading newer than every earlier reading of its device becomes that
   * device's latest reading and heads its history.
   */
  lemma NewestAppendIsLatest(rs: seq<Reading>, r: Reading)
    requires forall x :: x in rs && x.deviceId == r.deviceId ==> x.timestamp < r.timestamp
    ensures Latest(rs + [r], r.deviceId) == Some(r)
    ensures History(rs + [r], r.deviceId) != [] && History(rs + [r], r.deviceId)[0] == r
  {
    assert r in rs + [r];
    LatestMatchesHistoryHead(rs + [r], r.deviceId);
    var h := History(rs + [r], r.deviceId);
    HistoryFromTable(rs + [r], r.deviceId);
    assert h[0] in rs + [r] && h[0].deviceId == r.deviceId;
  }

  /** Right after a reading is stored, its device's latest reading is at least as new as it. */
  lemma AppendedIsNotNewerThanLatest(rs: seq<Reading>, r: Reading)
    ensures Latest(rs + [r], r.deviceId).Some?
    ensures Latest(rs + [r], r.deviceId).value.timestamp >= r.timestamp
  {
    assert r in rs + [r];
  }

  /** Every reading of the history comes from the table. */
  lemma HistoryFromTable(rs: seq<Reading>, d: string)
    ensures forall i :: 0 <= i < |History(rs, d)| ==> History(rs, d)[i] in rs
  {
    var h, f := History(rs, d), ForDevice(rs, d);
    ForDeviceMultiset(rs, d);
    forall i | 0 <= i < |h| ensures h[i] in rs {
      assert multiset(f)[h[i]] > 0;
    }
  }

  /** A reading of the device that the history leaves out is not newer than any reading it holds. */
  lemma HistoryOmitsOnlyOlder(rs: seq<Reading>, d: string)
    ensures forall x, y :: x in rs && x.deviceId == d && x !in History(rs, d) && y in History(rs, d) ==> x.timestamp <= y.timestamp
  {
    var h, f := History(rs, d), ForDevice(rs, d);
    ForDeviceMultiset(rs, d);
    forall x, y | x in rs && x.deviceId == d && x !in h && y in h ensures x.timestamp <= y.timestamp {
      assert multiset(f)[x] > 0;
      assert x in multiset(f) - multiset(h);
    }
  }

  /** The history is empty exactly when the device has no reading. */
  lemma HistoryEmptyIffNoReading(rs: seq<Reading>, d: string)
    ensures (forall x :: x in rs ==> x.deviceId != d) <==> History(rs, d) == []
  {
    var h, f := History(rs, d), ForDevice(rs, d);
    ForDeviceMultiset(rs, d);
    if h == [] {
      assert |f| == 0;
      forall x | x in rs ensures x.deviceId != d {
        assert multiset(f)[x] == 0;
      }
    } else {
      HistoryFromTable(rs, d);
      assert h[0] in rs && h[0].deviceId == d;
    }
  }
}
