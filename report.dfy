/**
 * The loop of `main`: each loaded ban is classified against a clock reading
 * taken for it, counted, and its raw line (with a newline) appended to the
 * expired output or the active output.
 */
module Report {
  import opened GoStrings
  import opened Timestamps
  import opened Bans
  import opened Loader

  /** A ban has expired when it is not permanent (expiration 0) and its time lies before `now`. */
  predicate IsExpired(b: Ban, now: int64)
  {
    b.expiration != 0 && b.expiration < now
  }

  /** The text written for a ban. */
  function OutputLine(b: Ban): (out: string)
  {
    b.rawLine + "\n"
  }

  /** The lines written to the expired output, `clock[i]` being the time read for `bans[i]`. */
  function ExpiredOutput(bans: seq<Ban>, clock: seq<int64>): (out: seq<string>)
    requires |clock| == |bans|
  {
    if |bans| == 0 then []
    else
      var n := |bans| - 1;
      ExpiredOutput(bans[..n], clock[..n]) + (if IsExpired(bans[n], clock[n]) then [OutputLine(bans[n])] else [])
  }

  /** The lines written to the active output. */
  function ActiveOutput(bans: seq<Ban>, clock: seq<int64>): (out: seq<string>)
    requires |clock| == |bans|
  {
    if |bans| == 0 then []
    else
      var n := |bans| - 1;
      ActiveOutput(bans[..n], clock[..n]) + (if IsExpired(bans[n], clock[n]) then [] else [OutputLine(bans[n])])
  }

  /** Every ban's line, in order. */
  function AllOutput(bans: seq<Ban>): (out: seq<string>)
    ensures |out| == |bans|
  {
    if |bans| == 0 then [] else AllOutput(bans[..|bans| - 1]) + [OutputLine(bans[|bans| - 1])]
  }

  /**
   * The classification loop of `main`: returns the two counters and what was
   * appended to each output. Write failures are not modelled; the counters
   * are incremented whether or not the write succeeds.
   */
  method ProcessBans(bans: seq<Ban>, clock: seq<int64>)
    returns (expiredCount: nat, activeCount: nat, expiredOut: seq<string>, activeOut: seq<string>)
    requires |clock| == |bans|
    ensures expiredOut == ExpiredOutput(bans, clock)
    ensures activeOut == ActiveOutput(bans, clock)
    ensures expiredCount == |expiredOut| && activeCount == |activeOut|
    ensures expiredCount + activeCount == |bans|
  {
    expiredCount, activeCount := 0, 0;
    expiredOut, activeOut := [], [];
    for i := 0 to |bans|
      invariant expiredOut == ExpiredOutput(bans[..i], clock[..i])
      invariant activeOut == ActiveOutput(bans[..i], clock[..i])
      invariant expiredCount == |expiredOut| && activeCount == |activeOut|
      invariant expiredCount + activeCount == i
    {
      assert bans[..i + 1][..i] == bans[..i] && clock[..i + 1][..i] == clock[..i];
      var ban := bans[i];
      var currentUnixTime := clock[i];
      if ban.expiration != 0 && ban.expiration < currentUnixTime {
        expiredCount := expiredCount + 1;
        expiredOut := expiredOut + [ban.rawLine + "\n"];
      } else {
        activeCount := activeCount + 1;
        activeOut := activeOut + [ban.rawLine + "\n"];
      }
    }
    assert bans[..|bans|] == bans && clock[..|clock|] == clock;
  }

  /** The last ban's line goes to exactly one output. */
  lemma OutputsStep(bans: seq<Ban>, clock: seq<int64>)
    requires |clock| == |bans| > 0
    ensures var n, line := |bans| - 1, OutputLine(bans[|bans| - 1]);
      var e, a := ExpiredOutput(bans[..n], clock[..n]), ActiveOutput(bans[..n], clock[..n]);
      && AllOutput(bans) == AllOutput(bans[..n]) + [line]
      && (IsExpired(bans[n], clock[n]) ==> ExpiredOutput(bans, clock) == e + [line] && ActiveOutput(bans, clock) == a)
      && (!IsExpired(bans[n], clock[n]) ==> ExpiredOutput(bans, clock) == e && ActiveOutput(bans, clock) == a + [line])
  {
  }

  /** Adding an element to one side of a split adds it to the whole. */
  lemma MultisetSplitStep<T>(e: seq<T>, a: seq<T>, all: seq<T>, x: T, e2: seq<T>, a2: seq<T>, all2: seq<T>)
    requires multiset(e) + multiset(a) == multiset(all)
    requires all2 == all + [x]
    requires (e2 == e + [x] && a2 == a) || (e2 == e && a2 == a + [x])
    ensures multiset(e2) + multiset(a2) == multiset(all2)
  {
    assert multiset(e + [x]) == multiset(e) + multiset{x};
    assert multiset(a + [x]) == multiset(a) + multiset{x};
    assert multiset(all + [x]) == multiset(all) + multiset{x};
  }

  /**
   * The two outputs split the bans' lines between them: together they hold
   * every line exactly as often as the bans do.
   */
  lemma {:induction false} OutputsPartition(bans: seq<Ban>, clock: seq<int64>)
    requires |clock| == |bans|
    ensures LinesSplit(bans, clock)
  {
    if |bans| > 0 {
      var n := |bans| - 1;
      OutputsPartition(bans[..n], clock[..n]);
      PartitionStep(bans, clock);
    }
  }

  /** The two outputs together hold every ban's line exactly as often as the bans do. */
  predicate LinesSplit(bans: seq<Ban>, clock: seq<int64>)
    requires |clock| == |bans|
  {
    multiset(ExpiredOutput(bans, clock)) + multiset(ActiveOutput(bans, clock)) == multiset(AllOutput(bans))
  }

  /** If the outputs of all bans but the last split their lines, so do the outputs of all. */
  lemma PartitionStep(bans: seq<Ban>, clock: seq<int64>)
    requires |clock| == |bans| > 0
    requires LinesSplit(bans[..|bans| - 1], clock[..|bans| - 1])
    ensures LinesSplit(bans, clock)
  {
    var n := |bans| - 1;
    var pb, pc := bans[..n], clock[..n];
    OutputsStep(bans, clock);
    MultisetSplitStep(ExpiredOutput(pb, pc), ActiveOutput(pb, pc), AllOutput(pb), OutputLine(bans[n]),
                      ExpiredOutput(bans, clock), ActiveOutput(bans, clock), AllOutput(bans));
  }

  /** Every ban is counted exactly once: the two outputs' sizes sum to the number of bans. */
  lemma OutputsCount(bans: seq<Ban>, clock: seq<int64>)
    requires |clock| == |bans|
    ensures |ExpiredOutput(bans, clock)| + |ActiveOutput(bans, clock)| == |bans|
  {
    OutputsPartition(bans, clock);
    var e, a := multiset(ExpiredOutput(bans, clock)), multiset(ActiveOutput(bans, clock));
    assert |e + a| == |e| + |a|;
  }

  /** Classification is ban by ban: two blocks of bans give their outputs one after the other. */
  lemma {:induction false} OutputsAppend(b1: seq<Ban>, c1: seq<int64>, b2: seq<Ban>, c2: seq<int64>)
    requires |c1| == |b1| && |c2| == |b2|
    ensures ExpiredOutput(b1 + b2, c1 + c2) == ExpiredOutput(b1, c1) + ExpiredOutput(b2, c2)
    ensures ActiveOutput(b1 + b2, c1 + c2) == ActiveOutput(b1, c1) + ActiveOutput(b2, c2)
  {
    if |b2| > 0 {
      var b, c := b1 + b2, c1 + c2;
      var n, n2 := |b| - 1, |b2| - 1;
      assert b[..n] == b1 + b2[..n2] && c[..n] == c1 + c2[..n2];
      assert b[n] == b2[n2] && c[n] == c2[n2];
      OutputsAppend(b1, c1, b2[..n2], c2[..n2]);
    } else {
      assert b1 + b2 == b1 && c1 + c2 == c1;
    }
  }

  /**
   * Each ban's line lands in exactly one output, at its place in input order:
   * the expired output when it has expired at its clock reading, the active
   * output otherwise.
   */
  lemma Routed(b1: seq<Ban>, c1: seq<int64>, ban: Ban, t: int64, b2: seq<Ban>, c2: seq<int64>)
    requires |c1| == |b1| && |c2| == |b2|
    ensures var bans, clock := b1 + [ban] + b2, c1 + [t] + c2;
      && ExpiredOutput(bans, clock)
         == ExpiredOutput(b1, c1) + (if IsExpired(ban, t) then [OutputLine(ban)] else []) + ExpiredOutput(b2, c2)
      && ActiveOutput(bans, clock)
         == ActiveOutput(b1, c1) + (if IsExpired(ban, t) then [] else [OutputLine(ban)]) + ActiveOutput(b2, c2)
  {
    OutputsAppend(b1 + [ban], c1 + [t], b2, c2);
    OutputsAppend(b1, c1, [ban], [t]);
    assert [ban][..0] == [] && [t][..0] == [];
  }

  /**
   * Against a clock reading `now`: a permanent ban (expiration 0) and a ban
   * whose expiration is `now` or later are active, and only a positive
   * expiration before `now` is expired.
   */
  lemma ExpiredAgainstFixedTime(b: Ban, now: int64)
    requires b.expiration >= 0
    ensures IsExpired(b, now) <==> 0 < b.expiration < now
    ensures b.expiration == 0 ==> !IsExpired(b, now)
  {
  }

  /**
   * A ban that is expired is never the zero-value `Ban` (its expiration is not
   * 0), so when only zero-value bans have empty lines, no expired line is empty.
   */
  lemma {:induction false} ExpiredLinesOfNonZero(bans: seq<Ban>, clock: seq<int64>)
    requires |clock| == |bans|
    requires forall j :: 0 <= j < |bans| ==> bans[j] == ZeroBan || bans[j].rawLine != ""
    ensures forall k :: 0 <= k < |ExpiredOutput(bans, clock)| ==> ExpiredOutput(bans, clock)[k] != "\n"
  {
    if |bans| > 0 {
      var n := |bans| - 1;
      var pb, pc := bans[..n], clock[..n];
      assert forall j :: 0 <= j < |pb| ==> pb[j] == bans[j];
      ExpiredLinesOfNonZero(pb, pc);
      OutputsStep(bans, clock);
      if IsExpired(bans[n], clock[n]) {
        assert bans[n].rawLine != "";
        assert |OutputLine(bans[n])| > 1;
      }
    }
  }

  /**
   * The expired output never holds an empty line: every line written there is
   * a ban line of the input, unlike the active output, which can receive the
   * empty line of a zero-value `Ban`.
   */
  lemma ExpiredLinesNonEmpty(lines: seq<string>, clock: seq<int64>)
    requires |clock| == |LoadBans(lines)|
    ensures forall k :: 0 <= k < |ExpiredOutput(LoadBans(lines), clock)| ==> ExpiredOutput(LoadBans(lines), clock)[k] != "\n"
  {
    var bans := LoadBans(lines);
    forall j | 0 <= j < |bans| ensures bans[j] == ZeroBan || bans[j].rawLine != "" {
      LoadedBansOrigin(lines, j);
    }
    ExpiredLinesOfNonZero(bans, clock);
  }

  /**
   * `main` after `readBansFromFile`: the bans loaded from `lines`, classified
   * with one clock reading per ban.
   */
  method Run(lines: seq<string>, clock: seq<int64>)
    returns (expiredCount: nat, activeCount: nat, expiredOut: seq<string>, activeOut: seq<string>)
    requires |clock| == |LoadBans(lines)|
    ensures expiredOut == ExpiredOutput(LoadBans(lines), clock)
    ensures activeOut == ActiveOutput(LoadBans(lines), clock)
    ensures expiredCount == |expiredOut| && activeCount == |activeOut|
    ensures expiredCount + activeCount == |LoadBans(lines)| <= |lines|
  {
    var bans := ReadBans(lines);
    expiredCount, activeCount, expiredOut, activeOut := ProcessBans(bans, clock);
  }

  /**
   * A line that is neither blank nor a comment and has neither one nor two
   * colons is not dropped: it becomes the zero-value `Ban`, which counts as
   * active and writes an empty line to the active output.
   */
  lemma OddLineWritesEmptyActiveLine(line: string, t: int64)
    requires !IsSkipped(line)
    requires Count(line, ':') != 1 && Count(line, ':') != 2
    ensures |LoadBans([line])| == 1 && ExpiredOutput(LoadBans([line]), [t]) == []
    ensures |LoadBans([line])| == 1 && ActiveOutput(LoadBans([line]), [t]) == ["\n"]
  {
    LoadOddLine(line);
    assert !IsExpired(ZeroBan, t);
    assert OutputLine(ZeroBan) == "\n";
    Routed([], [], ZeroBan, t, [], []);
    assert [] + [ZeroBan] + [] == [ZeroBan] && [] + [t] + [] == [t];
  }

  /** Three bans against one time `now`: expired, permanent and not yet due. */
  lemma ClassifyThree(e: Ban, p: Ban, a: Ban, now: int64)
    requires 0 < e.expiration < now && p.expiration == 0 && now <= a.expiration
    ensures ExpiredOutput([e, p, a], [now, now, now]) == [OutputLine(e)]
    ensures ActiveOutput([e, p, a], [now, now, now]) == [OutputLine(p), OutputLine(a)]
  {
    var none: seq<int64>, one: seq<int64>, two: seq<int64> := [], [now], [now, now];
    Routed([], none, e, now, [p, a], two);
    Routed([], none, p, now, [a], one);
    Routed([], none, a, now, [], none);
    assert [] + [e] + [p, a] == [e, p, a] && none + [now] + two == [now, now, now];
    assert [] + [p] + [a] == [p, a] && none + [now] + one == two;
    assert [] + [a] + [] == [a] && none + [now] + none == one;
  }
}
