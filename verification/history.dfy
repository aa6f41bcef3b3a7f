/**
  The bounded undo history of the drawing surface: a sequence of snapshots,
  oldest first, of which only the most recent `MaxEntries` are kept.
  Generic in the snapshot type, since the bounding rule does not look at it.
 */
module History {

  /** The cap applied after every push (components/DrawingCanvas.tsx:58). */
  const MaxEntries: nat := 30

  /** Reference definition: the last `n` elements of `s`, or all of `s` when it is shorter. */
  function LastN<T>(s: seq<T>, n: nat): (r: seq<T>)
    ensures |r| == if |s| <= n then |s| else n
    ensures forall i :: 0 <= i < |r| ==> r[i] == s[|s| - |r| + i]
  {
    if |s| <= n then s else s[|s| - n..]
  }

  /** Push a snapshot, then evict the oldest entry once the length exceeds the cap. */
  function Push<T>(h: seq<T>, b: T): (r: seq<T>)
    ensures |r| > 0 && r[|r| - 1] == b
    ensures |h| < MaxEntries ==> r == h + [b]
    ensures |h| == MaxEntries ==> |r| == MaxEntries && r[..|r| - 1] == h[1..]
    ensures |h| <= MaxEntries ==> 1 <= |r| <= MaxEntries
  {
    var pushed := h + [b];
    if |pushed| > MaxEntries then pushed[1..] else pushed
  }

  /** Removing the top entry, guarded as the undo operation guards it. */
  function Pop<T>(h: seq<T>): (r: seq<T>)
    ensures |h| > 1 ==> |r| == |h| - 1 && r == h[..|h| - 1]
    ensures |h| <= 1 ==> r == h
    ensures |r| >= 1 <==> |h| >= 1
  {
    if |h| > 1 then h[..|h| - 1] else h
  }

  /** Push each of `bs` in turn, first element first. */
  function PushAll<T>(h: seq<T>, bs: seq<T>): seq<T>
    decreases |bs|
  {
    if |bs| == 0 then h else Push(PushAll(h, bs[..|bs| - 1]), bs[|bs| - 1])
  }

  /** Pop `k` times. */
  function PopN<T>(h: seq<T>, k: nat): seq<T>
  {
    if k == 0 then h else PopN(Pop(h), k - 1)
  }

  /** A push onto a history within the cap keeps exactly the most recent `MaxEntries` snapshots. */
  lemma PushKeepsMostRecent<T>(h: seq<T>, b: T)
    requires |h| <= MaxEntries
    ensures Push(h, b) == LastN(h + [b], MaxEntries)
  {
  }

  /** Dropping a prefix no longer than what `LastN` discards changes nothing. */
  lemma LastNOfSuffix<T>(s: seq<T>, k: nat, n: nat)
    requires k <= |s| - n
    ensures LastN(s[k..], n) == LastN(s, n)
  {
    assert s[k..][|s| - k - n..] == s[|s| - n..];
  }

  /** Truncating to the last `n` before appending loses nothing that a later truncation would keep. */
  lemma LastNAppend<T>(x: seq<T>, y: seq<T>, n: nat)
    ensures LastN(LastN(x, n) + y, n) == LastN(x + y, n)
  {
    if |x| > n {
      var k := |x| - n;
      assert LastN(x, n) + y == (x + y)[k..];
      LastNOfSuffix(x + y, k, n);
    }
  }

  /** Pushing then truncating later is the same as truncating everything at the end. */
  lemma PushThenLastN<T>(h: seq<T>, b: T, rest: seq<T>)
    requires |h| <= MaxEntries
    ensures LastN(Push(h, b) + rest, MaxEntries) == LastN(h + ([b] + rest), MaxEntries)
  {
    PushKeepsMostRecent(h, b);
    LastNAppend(h + [b], rest, MaxEntries);
    assert h + [b] + rest == h + ([b] + rest);
  }

  /** Once at least `MaxEntries` snapshots follow it, the old history is gone entirely. */
  lemma LastNOfLong<T>(h: seq<T>, f: seq<T>, n: nat)
    requires |f| >= MaxEntries && n == |f|
    ensures |LastN(h + f, MaxEntries)| == MaxEntries
    ensures LastN(h + f, MaxEntries) == f[n - MaxEntries..]
  {
    assert (h + f)[|h + f| - MaxEntries..] == f[|f| - MaxEntries..];
  }

  lemma SplitLast<T>(h: seq<T>, bs: seq<T>)
    requires |bs| > 0
    ensures h + bs == (h + bs[..|bs| - 1]) + [bs[|bs| - 1]]
  {
    assert bs == bs[..|bs| - 1] + [bs[|bs| - 1]];
  }

  /**
    After any number of commits onto a history within the cap, the history holds
    exactly the most recent `MaxEntries` snapshots of everything ever pushed: after
    more than 30 strokes the length is 30 and the oldest survivors are the latest ones.
   */
  lemma {:induction false} PushAllKeepsMostRecent<T>(h: seq<T>, bs: seq<T>)
    requires |h| <= MaxEntries
    ensures PushAll(h, bs) == LastN(h + bs, MaxEntries)
    decreases |bs|
  {
    if |bs| == 0 {
      assert h + bs == h;
    } else {
      var init := bs[..|bs| - 1];
      var last := bs[|bs| - 1];
      SplitLast(h, bs);
      PushAllKeepsMostRecent(h, init);
      var mid := PushAll(h, init);
      PushKeepsMostRecent(mid, last);
      LastNAppend(h + init, [last], MaxEntries);
      calc {
        PushAll(h, bs);
        Push(mid, last);
        LastN(mid + [last], MaxEntries);
        LastN(LastN(h + init, MaxEntries) + [last], MaxEntries);
        LastN(h + bs, MaxEntries);
      }
    }
  }

  /**
    Popping `k` times never empties a non-empty history: it removes min(k, |h| - 1)
    entries from the top and leaves the rest in place.
   */
  lemma {:induction false} PopNFloor<T>(h: seq<T>, k: nat)
    requires |h| >= 1
    ensures var keep := if k >= |h| - 1 then 1 else |h| - k;
      PopN(h, k) == h[..keep]
    decreases k
  {
    if k > 0 {
      if |h| > 1 {
        PopNFloor(h[..|h| - 1], k - 1);
        assert h[..|h| - 1][..(if k - 1 >= |h| - 2 then 1 else |h| - k)]
            == h[..(if k >= |h| - 1 then 1 else |h| - k)];
      } else {
        PopNFloor(h, k - 1);
      }
    } else {
      assert h[..|h|] == h;
    }
  }
}
