/**
 The batch filter of the log viewer (`LogcatActivity.processLogs`).

 Lines are scanned in order. A line that does not mention the marker
 "NotFoundException" (in any letter case) is always kept. A marker line is
 offered to the debounce gate only while no marker line has been kept in
 this batch; the first one the gate accepts is kept, and every marker line
 the gate rejects is dropped. The kept lines are then cut to the first 500.

 `Scan` is the specification of the loop, one line at a time; `ProcessLogs`
 is the loop itself, driving a `DebounceManager` object. `Scan` and its
 lemmas are stated for any line test `isMarker`; the activity's test is
 `IsMarkerLine`, which `ProcessedLogs` and `ProcessLogs` use.
 */
module LogFilter {
  import opened Text
  import opened Debounce

  /** The key of the noisy category, which is also the text searched for. */
  const Marker: string := "NotFoundException"

  /** At most this many lines are shown. */
  const MaxLines: nat := 500

  /** `line.contains("NotFoundException", ignoreCase = true)`. */
  predicate IsMarkerLine(line: string)
  {
    ContainsIgnoreCase(line, Marker)
  }

  /**
   The state of one scan: the lines kept so far, the gate's table, the
   batch-local flag `notFoundLogged`, and how many times the gate was asked.
   */
  datatype Batch = Batch(kept: seq<string>, table: map<string, int>, logged: bool, offers: nat)

  /** One turn of the loop, on `line` read at time `now`. */
  function StepLine(isMarker: string -> bool, b: Batch, line: string, now: int): Batch
  {
    if !isMarker(line) then
      b.(kept := b.kept + [line])
    else if b.logged then
      b
    else
      var d := Gate(b.table, Marker, now);
      if d.accepted then Batch(b.kept + [line], d.table, true, b.offers + 1)
      else b.(table := d.table, offers := b.offers + 1)
  }

  /**
   The whole loop over `lines`, starting from gate table `table`; `clock[i]`
   is the time the gate would read if it were asked about `lines[i]`.
   */
  function Scan(isMarker: string -> bool, lines: seq<string>, clock: seq<int>, table: map<string, int>): Batch
    requires |clock| == |lines|
    decreases |lines|
  {
    if lines == [] then Batch([], table, false, 0)
    else
      var n := |lines| - 1;
      StepLine(isMarker, Scan(isMarker, lines[..n], clock[..n], table), lines[n], clock[n])
  }

  /** The first `n` elements of `s` (all of them when `s` is shorter), as `take(n)`. */
  function Take<T>(s: seq<T>, n: nat): (r: seq<T>)
    ensures |r| <= n
    ensures |r| == |s| || |r| == n
    ensures |r| <= |s| && r == s[..|r|]
  {
    if |s| <= n then s else s[..n]
  }

  /** The lines `processLogs` returns. */
  function ProcessedLogs(lines: seq<string>, clock: seq<int>, table: map<string, int>): seq<string>
    requires |clock| == |lines|
  {
    Take(Scan(IsMarkerLine, lines, clock, table).kept, MaxLines)
  }

  // ---------------------------------------------------------------------------
  // Vocabulary for the properties

  /** `xs` is `ys` with some elements removed, order kept. */
  ghost predicate Subsequence<T>(xs: seq<T>, ys: seq<T>)
    decreases |ys|
  {
    xs == [] ||
    (ys != [] &&
      ((xs[|xs| - 1] == ys[|ys| - 1] && Subsequence(xs[..|xs| - 1], ys[..|ys| - 1])) ||
       Subsequence(xs, ys[..|ys| - 1])))
  }

  /** The number of marker lines in `s`. */
  ghost function MarkerCount(isMarker: string -> bool, s: seq<string>): nat
    decreases |s|
  {
    if s == [] then 0
    else MarkerCount(isMarker, s[..|s| - 1]) + (if isMarker(s[|s| - 1]) then 1 else 0)
  }

  /** The non-marker lines of `s`, in order. */
  ghost function PlainLines(isMarker: string -> bool, s: seq<string>): seq<string>
    decreases |s|
  {
    if s == [] then []
    else PlainLines(isMarker, s[..|s| - 1]) + (if isMarker(s[|s| - 1]) then [] else [s[|s| - 1]])
  }

  /** Line `i` is a marker line that the gate, in state `table`, would let through at its time. */
  ghost predicate AcceptedAt(isMarker: string -> bool, lines: seq<string>, clock: seq<int>, table: map<string, int>, i: int)
  {
    0 <= i < |lines| && i < |clock| && isMarker(lines[i]) && Gate(table, Marker, clock[i]).accepted
  }

  // ---------------------------------------------------------------------------
  // The loop

  /**
   `processLogs(logs)` with the activity's gate `gate`. The ghost result
   `gateCalls` counts the calls of `shouldProcess`.
   */
  method ProcessLogs(gate: DebounceManager, logs: seq<string>, clock: seq<int>)
    returns (result: seq<string>, ghost gateCalls: nat)
    requires |clock| == |logs|
    modifies gate
    ensures result == ProcessedLogs(logs, clock, old(gate.debounceMap))
    ensures gate.debounceMap == Scan(IsMarkerLine, logs, clock, old(gate.debounceMap)).table
    ensures gateCalls == Scan(IsMarkerLine, logs, clock, old(gate.debounceMap)).offers
    ensures |result| <= MaxLines
    ensures Subsequence(result, logs)
    ensures MarkerCount(IsMarkerLine, result) <= 1
  {
    ghost var table0 := gate.debounceMap;
    var processedLogs: seq<string> := [];
    var notFoundLogged := false;
    gateCalls := 0;
    for i := 0 to |logs|
      invariant Scan(IsMarkerLine, logs[..i], clock[..i], table0)
             == Batch(processedLogs, gate.debounceMap, notFoundLogged, gateCalls)
    {
      var line := logs[i];
      if IsMarkerLine(line) {
        if !notFoundLogged {
          var accepted := gate.ShouldProcess(Marker, clock[i]);
          gateCalls := gateCalls + 1;
          if accepted {
            processedLogs := processedLogs + [line];
            notFoundLogged := true;
          }
        }
      } else {
        processedLogs := processedLogs + [line];
      }
      ScanPrefixStep(IsMarkerLine, logs, clock, table0, i);
    }
    assert logs[..|logs|] == logs && clock[..|clock|] == clock;
    result := Take(processedLogs, MaxLines);
    OutputIsSubsequence(IsMarkerLine, logs, clock, table0);
    OutputHasAtMostOneMarker(IsMarkerLine, logs, clock, table0);
  }

  /** The "clear all" action: forget the marker's last acceptance, then fetch and filter again. */
  method ClearAll(gate: DebounceManager, logs: seq<string>, clock: seq<int>) returns (result: seq<string>)
    requires |clock| == |logs|
    modifies gate
    ensures result == ProcessedLogs(logs, clock, old(gate.debounceMap) - {Marker})
    ensures gate.debounceMap == Scan(IsMarkerLine, logs, clock, old(gate.debounceMap) - {Marker}).table
    ensures (forall i :: 0 <= i < |clock| ==> clock[i] > DebounceDuration) ==>
              (MarkerCount(IsMarkerLine, logs) > 0 <==> Marker in gate.debounceMap)
  {
    gate.Reset(Marker);
    ghost var table := gate.debounceMap;
    ghost var calls;
    result, calls := ProcessLogs(gate, logs, clock);
    if forall i :: 0 <= i < |clock| ==> clock[i] > DebounceDuration {
      FreshGateAcceptsFirstMarker(IsMarkerLine, logs, clock, table);
    }
  }

  // ---------------------------------------------------------------------------
  // Properties of the scan

  /** Scanning one more line of the input is one more turn of the loop. */
  lemma ScanPrefixStep(isMarker: string -> bool, lines: seq<string>, clock: seq<int>, table: map<string, int>, k: nat)
    requires |clock| == |lines| && k < |lines|
    ensures Scan(isMarker, lines[..k + 1], clock[..k + 1], table)
         == StepLine(isMarker, Scan(isMarker, lines[..k], clock[..k], table), lines[k], clock[k])
  {
    assert lines[..k + 1][..k] == lines[..k] && clock[..k + 1][..k] == clock[..k];
  }

  /** Adding one line at the end adds it to the count exactly when it is a marker line. */
  lemma MarkerCountSnoc(isMarker: string -> bool, s: seq<string>, x: string)
    ensures MarkerCount(isMarker, s + [x]) == MarkerCount(isMarker, s) + if isMarker(x) then 1 else 0
  {
    assert (s + [x])[..|s|] == s;
  }

  /** Adding one line at the end adds it to the plain lines exactly when it is not a marker line. */
  lemma PlainLinesSnoc(isMarker: string -> bool, s: seq<string>, x: string)
    ensures PlainLines(isMarker, s + [x]) == PlainLines(isMarker, s) + if isMarker(x) then [] else [x]
  {
    assert (s + [x])[..|s|] == s;
  }

  /** Every scan keeps an order-preserving selection of its input. */
  lemma {:induction false} KeptIsSubsequence(isMarker: string -> bool, lines: seq<string>, clock: seq<int>, table: map<string, int>)
    requires |clock| == |lines|
    ensures Subsequence(Scan(isMarker, lines, clock, table).kept, lines)
    decreases |lines|
  {
    if lines != [] {
      var n := |lines| - 1;
      var prev := Scan(isMarker, lines[..n], clock[..n], table);
      KeptIsSubsequence(isMarker, lines[..n], clock[..n], table);
      var kept := Scan(isMarker, lines, clock, table).kept;
      if kept == prev.kept + [lines[n]] {
        assert kept[..|kept| - 1] == prev.kept;
      } else {
        assert kept == prev.kept;
      }
    }
  }

  /** A sequence is its first `k` elements followed by the rest. */
  lemma SplitAt<T>(s: seq<T>, k: nat)
    requires k <= |s|
    ensures s[..k] + s[k..] == s
  {
  }

  /** A prefix of a subsequence is a subsequence. */
  lemma {:induction false} SubsequencePrefix<T>(xs: seq<T>, ys: seq<T>, k: nat)
    requires k <= |xs|
    requires Subsequence(xs, ys)
    ensures Subsequence(xs[..k], ys)
    decreases |ys|
  {
    if k == |xs| {
      assert xs[..k] == xs;
    } else if ys != [] {
      var m := |ys| - 1;
      if xs[|xs| - 1] == ys[m] && Subsequence(xs[..|xs| - 1], ys[..m]) {
        SubsequencePrefix(xs[..|xs| - 1], ys[..m], k);
        assert xs[..|xs| - 1][..k] == xs[..k];
      } else {
        SubsequencePrefix(xs, ys[..m], k);
      }
    }
  }

  /** The output is at most 500 lines, chosen from the input in order. */
  lemma OutputIsSubsequence(isMarker: string -> bool, lines: seq<string>, clock: seq<int>, table: map<string, int>)
    requires |clock| == |lines|
    ensures |Take(Scan(isMarker, lines, clock, table).kept, MaxLines)| <= MaxLines
    ensures Subsequence(Take(Scan(isMarker, lines, clock, table).kept, MaxLines), lines)
  {
    var kept := Scan(isMarker, lines, clock, table).kept;
    KeptIsSubsequence(isMarker, lines, clock, table);
    SubsequencePrefix(kept, lines, |Take(kept, MaxLines)|);
  }

  /** A batch keeps one marker line if it set its flag, and none otherwise. */
  lemma {:induction false} KeptMarkerCount(isMarker: string -> bool, lines: seq<string>, clock: seq<int>, table: map<string, int>)
    requires |clock| == |lines|
    ensures MarkerCount(isMarker, Scan(isMarker, lines, clock, table).kept)
         == if Scan(isMarker, lines, clock, table).logged then 1 else 0
    decreases |lines|
  {
    if lines != [] {
      var n := |lines| - 1;
      var prev := Scan(isMarker, lines[..n], clock[..n], table);
      KeptMarkerCount(isMarker, lines[..n], clock[..n], table);
      MarkerCountSnoc(isMarker, prev.kept, lines[n]);
    }
  }

  /** A prefix has no more marker lines than the whole. */
  lemma {:induction false} MarkerCountPrefix(isMarker: string -> bool, s: seq<string>, k: nat)
    requires k <= |s|
    ensures MarkerCount(isMarker, s[..k]) <= MarkerCount(isMarker, s)
    decreases |s|
  {
    if k < |s| {
      MarkerCountPrefix(isMarker, s[..|s| - 1], k);
      assert s[..|s| - 1][..k] == s[..k];
    } else {
      assert s[..k] == s;
    }
  }

  /** At most one marker line is shown per batch. */
  lemma OutputHasAtMostOneMarker(isMarker: string -> bool, lines: seq<string>, clock: seq<int>, table: map<string, int>)
    requires |clock| == |lines|
    ensures MarkerCount(isMarker, Take(Scan(isMarker, lines, clock, table).kept, MaxLines)) <= 1
  {
    var kept := Scan(isMarker, lines, clock, table).kept;
    KeptMarkerCount(isMarker, lines, clock, table);
    MarkerCountPrefix(isMarker, kept, |Take(kept, MaxLines)|);
  }

  /** Before the cut, every non-marker line is kept, in order, and nothing else but marker lines. */
  lemma {:induction false} KeepsEveryPlainLine(isMarker: string -> bool, lines: seq<string>, clock: seq<int>, table: map<string, int>)
    requires |clock| == |lines|
    ensures PlainLines(isMarker, Scan(isMarker, lines, clock, table).kept) == PlainLines(isMarker, lines)
    decreases |lines|
  {
    if lines != [] {
      var n := |lines| - 1;
      var prev := Scan(isMarker, lines[..n], clock[..n], table);
      KeepsEveryPlainLine(isMarker, lines[..n], clock[..n], table);
      var kept := Scan(isMarker, lines, clock, table).kept;
      PlainLinesSnoc(isMarker, lines[..n], lines[n]);
      assert lines[..n] + [lines[n]] == lines;
      if kept == prev.kept + [lines[n]] {
        PlainLinesSnoc(isMarker, prev.kept, lines[n]);
      } else {
        assert isMarker(lines[n]) && kept == prev.kept;
      }
    }
  }

  /** Without marker lines the scan keeps everything and never asks the gate. */
  lemma {:induction false} NoMarkerKeepsAll(isMarker: string -> bool, lines: seq<string>, clock: seq<int>, table: map<string, int>)
    requires |clock| == |lines|
    requires forall i :: 0 <= i < |lines| ==> !isMarker(lines[i])
    ensures Scan(isMarker, lines, clock, table) == Batch(lines, table, false, 0)
    decreases |lines|
  {
    if lines != [] {
      var n := |lines| - 1;
      NoMarkerKeepsAll(isMarker, lines[..n], clock[..n], table);
      assert lines[..n] + [lines[n]] == lines;
    }
  }

  /** Without marker lines the output is the first min(500, |lines|) input lines. */
  lemma NoMarkerOutputIsPrefix(lines: seq<string>, clock: seq<int>, table: map<string, int>)
    requires |clock| == |lines|
    requires forall i :: 0 <= i < |lines| ==> !IsMarkerLine(lines[i])
    ensures ProcessedLogs(lines, clock, table) == lines[..if |lines| < MaxLines then |lines| else MaxLines]
  {
    NoMarkerKeepsAll(IsMarkerLine, lines, clock, table);
  }

  /** Once the flag is set, the rest of the batch never asks the gate again and leaves its table alone. */
  lemma {:induction false} SilentAfterAcceptance(isMarker: string -> bool, lines: seq<string>, clock: seq<int>, table: map<string, int>, i: nat)
    requires |clock| == |lines|
    requires i <= |lines|
    requires Scan(isMarker, lines[..i], clock[..i], table).logged
    ensures Scan(isMarker, lines, clock, table).logged
    ensures Scan(isMarker, lines, clock, table).offers == Scan(isMarker, lines[..i], clock[..i], table).offers
    ensures Scan(isMarker, lines, clock, table).table == Scan(isMarker, lines[..i], clock[..i], table).table
    decreases |lines|
  {
    if i == |lines| {
      assert lines[..i] == lines && clock[..i] == clock;
    } else {
      var n := |lines| - 1;
      assert lines[..n][..i] == lines[..i] && clock[..n][..i] == clock[..i];
      SilentAfterAcceptance(isMarker, lines[..n], clock[..n], table, i);
    }
  }

  /** Once the flag is set, the lines `more` that follow add exactly their non-marker lines. */
  lemma {:induction false} PlainAfterAcceptance(isMarker: string -> bool, lines: seq<string>, clock: seq<int>,
                                                more: seq<string>, later: seq<int>, table: map<string, int>)
    requires |clock| == |lines| && |later| == |more|
    requires Scan(isMarker, lines, clock, table).logged
    ensures Scan(isMarker, lines + more, clock + later, table).logged
    ensures Scan(isMarker, lines + more, clock + later, table).kept
         == Scan(isMarker, lines, clock, table).kept + PlainLines(isMarker, more)
    decreases |more|
  {
    if more == [] {
      assert lines + more == lines && clock + later == clock;
    } else {
      var m := |more| - 1;
      PlainAfterAcceptance(isMarker, lines, clock, more[..m], later[..m], table);
      ScanSnoc(isMarker, lines + more[..m], clock + later[..m], table, more[m], later[m]);
      assert (lines + more[..m]) + [more[m]] == lines + more;
      assert (clock + later[..m]) + [later[m]] == clock + later;
      PlainLinesSnoc(isMarker, more[..m], more[m]);
      assert more[..m] + [more[m]] == more;
    }
  }

  /** Dropping the last lines keeps the verdict on every earlier line. */
  lemma AcceptedAtPrefix(isMarker: string -> bool, lines: seq<string>, clock: seq<int>, table: map<string, int>, n: nat, i: int)
    requires n <= |lines| && n <= |clock| && i < n
    ensures AcceptedAt(isMarker, lines[..n], clock[..n], table, i) == AcceptedAt(isMarker, lines, clock, table, i)
  {
    if 0 <= i {
      assert lines[..n][i] == lines[i] && clock[..n][i] == clock[i];
    }
  }

  /**
   While the flag is unset, every marker line so far was offered to the gate
   and was rejected, the table is as it was, and only the non-marker lines
   were kept: a rejected marker line does not stop the next one from being
   offered.
   */
  lemma {:induction false} RejectedMarkersAreRetried(isMarker: string -> bool, lines: seq<string>, clock: seq<int>, table: map<string, int>)
    requires |clock| == |lines|
    requires !Scan(isMarker, lines, clock, table).logged
    ensures Scan(isMarker, lines, clock, table).offers == MarkerCount(isMarker, lines)
    ensures Scan(isMarker, lines, clock, table).table == table
    ensures Scan(isMarker, lines, clock, table).kept == PlainLines(isMarker, lines)
    ensures forall i :: !AcceptedAt(isMarker, lines, clock, table, i)
    decreases |lines|
  {
    if lines != [] {
      var n := |lines| - 1;
      var prev := Scan(isMarker, lines[..n], clock[..n], table);
      assert !prev.logged;
      RejectedMarkersAreRetried(isMarker, lines[..n], clock[..n], table);
      MarkerCountSnoc(isMarker, lines[..n], lines[n]);
      PlainLinesSnoc(isMarker, lines[..n], lines[n]);
      assert lines[..n] + [lines[n]] == lines;
      forall i ensures !AcceptedAt(isMarker, lines, clock, table, i) {
        if i < n {
          AcceptedAtPrefix(isMarker, lines, clock, table, n, i);
        }
      }
    }
  }

  /** The flag is set exactly when the gate accepted some marker line, and then at least one call was made. */
  lemma {:induction false} LoggedMeansAccepted(isMarker: string -> bool, lines: seq<string>, clock: seq<int>, table: map<string, int>)
    requires |clock| == |lines|
    ensures Scan(isMarker, lines, clock, table).logged <==> exists i :: AcceptedAt(isMarker, lines, clock, table, i)
    ensures Scan(isMarker, lines, clock, table).logged ==>
              1 <= Scan(isMarker, lines, clock, table).offers <= MarkerCount(isMarker, lines)
    decreases |lines|
  {
    if lines != [] {
      var n := |lines| - 1;
      var prev := Scan(isMarker, lines[..n], clock[..n], table);
      var cur := Scan(isMarker, lines, clock, table);
      MarkerCountSnoc(isMarker, lines[..n], lines[n]);
      assert lines[..n] + [lines[n]] == lines;
      if prev.logged {
        LoggedMeansAccepted(isMarker, lines[..n], clock[..n], table);
        var i :| AcceptedAt(isMarker, lines[..n], clock[..n], table, i);
        AcceptedAtPrefix(isMarker, lines, clock, table, n, i);
        assert cur.logged && cur.offers == prev.offers;
      } else {
        RejectedMarkersAreRetried(isMarker, lines[..n], clock[..n], table);
        if AcceptedAt(isMarker, lines, clock, table, n) {
          assert cur.logged;
        } else {
          assert !cur.logged;
          forall i ensures !AcceptedAt(isMarker, lines, clock, table, i) {
            if i < n {
              AcceptedAtPrefix(isMarker, lines, clock, table, n, i);
            }
          }
        }
      }
    }
  }

  /**
   Once the flag is set, the gate's table is the starting table with the
   marker key set to the clock reading of a marker line the starting gate
   accepts: the time of the line that was kept.
   */
  lemma {:induction false} AcceptedMarkerIsRecorded(isMarker: string -> bool, lines: seq<string>, clock: seq<int>, table: map<string, int>)
    returns (j: nat)
    requires |clock| == |lines|
    requires Scan(isMarker, lines, clock, table).logged
    ensures AcceptedAt(isMarker, lines, clock, table, j)
    ensures Scan(isMarker, lines, clock, table).table == table[Marker := clock[j]]
    ensures Marker in Scan(isMarker, lines, clock, table).table
    ensures Scan(isMarker, lines, clock, table).table[Marker] == clock[j]
    decreases |lines|
  {
    var n := |lines| - 1;
    if Scan(isMarker, lines[..n], clock[..n], table).logged {
      j := AcceptedMarkerIsRecorded(isMarker, lines[..n], clock[..n], table);
      AcceptedAtPrefix(isMarker, lines, clock, table, n, j);
    } else {
      RejectedMarkersAreRetried(isMarker, lines[..n], clock[..n], table);
      j := n;
    }
  }

  /** A line sequence without marker lines, counted, has none at any index. */
  lemma {:induction false} ZeroCountNoMarker(isMarker: string -> bool, s: seq<string>)
    requires MarkerCount(isMarker, s) == 0
    ensures forall i :: 0 <= i < |s| ==> !isMarker(s[i])
    decreases |s|
  {
    if s != [] {
      var n := |s| - 1;
      ZeroCountNoMarker(isMarker, s[..n]);
      forall i | 0 <= i < n ensures !isMarker(s[i]) {
        assert s[..n][i] == s[i];
      }
    }
  }

  /** A sequence with a marker line has a first one. */
  lemma {:induction false} FirstMarkerLine(isMarker: string -> bool, s: seq<string>) returns (j: nat)
    requires MarkerCount(isMarker, s) > 0
    ensures j < |s| && isMarker(s[j])
    ensures MarkerCount(isMarker, s[..j]) == 0
    decreases |s|
  {
    var n := |s| - 1;
    if MarkerCount(isMarker, s[..n]) > 0 {
      j := FirstMarkerLine(isMarker, s[..n]);
      assert s[..n][j] == s[j] && s[..n][..j] == s[..j];
    } else {
      j := n;
    }
  }

  /**
   When line `j` is the first marker line the starting gate accepts, the batch
   keeps the non-marker lines before it, then line `j`, then the non-marker
   lines after it; the gate records line `j`'s time; and the gate was called
   once for each marker line up to and including line `j`, and never after.
   */
  lemma FirstAcceptedIsKept(isMarker: string -> bool, lines: seq<string>, clock: seq<int>, table: map<string, int>, j: nat)
    requires |clock| == |lines|
    requires AcceptedAt(isMarker, lines, clock, table, j)
    requires forall i :: 0 <= i < j ==> !AcceptedAt(isMarker, lines, clock, table, i)
    ensures Scan(isMarker, lines, clock, table).logged
    ensures Scan(isMarker, lines, clock, table).table == table[Marker := clock[j]]
    ensures Scan(isMarker, lines, clock, table).offers == MarkerCount(isMarker, lines[..j + 1])
    ensures Scan(isMarker, lines, clock, table).kept
         == PlainLines(isMarker, lines[..j]) + [lines[j]] + PlainLines(isMarker, lines[j + 1..])
  {
    var before := Scan(isMarker, lines[..j], clock[..j], table);
    assert !before.logged && before.table == table && before.kept == PlainLines(isMarker, lines[..j])
        && before.offers == MarkerCount(isMarker, lines[..j]) by {
      forall i ensures !AcceptedAt(isMarker, lines[..j], clock[..j], table, i) {
        if i < j {
          AcceptedAtPrefix(isMarker, lines, clock, table, j, i);
        }
      }
      LoggedMeansAccepted(isMarker, lines[..j], clock[..j], table);
      RejectedMarkersAreRetried(isMarker, lines[..j], clock[..j], table);
    }
    var upTo := Scan(isMarker, lines[..j + 1], clock[..j + 1], table);
    assert upTo == Batch(before.kept + [lines[j]], table[Marker := clock[j]], true, before.offers + 1) by {
      ScanPrefixStep(isMarker, lines, clock, table, j);
    }
    assert upTo.offers == MarkerCount(isMarker, lines[..j + 1]) by {
      MarkerCountSnoc(isMarker, lines[..j], lines[j]);
      assert lines[..j] + [lines[j]] == lines[..j + 1];
    }
    SilentAfterAcceptance(isMarker, lines, clock, table, j + 1);
    PlainAfterAcceptance(isMarker, lines[..j + 1], clock[..j + 1], lines[j + 1..], clock[j + 1..], table);
    SplitAt(lines, j + 1);
    SplitAt(clock, j + 1);
  }

  /**
   On a gate that has never seen the marker, the first marker line of a batch
   is kept when its clock reading is past 5000 ms: the gate is called exactly
   once and records that line's time.
   */
  lemma FreshGateKeepsFirstMarker(isMarker: string -> bool, lines: seq<string>, clock: seq<int>, table: map<string, int>, j: nat)
    requires |clock| == |lines|
    requires Marker !in table
    requires j < |lines| && isMarker(lines[j]) && MarkerCount(isMarker, lines[..j]) == 0
    requires clock[j] > DebounceDuration
    ensures Scan(isMarker, lines, clock, table).logged
    ensures Scan(isMarker, lines, clock, table).offers == 1
    ensures Scan(isMarker, lines, clock, table).table == table[Marker := clock[j]]
    ensures Scan(isMarker, lines, clock, table).kept
         == PlainLines(isMarker, lines[..j]) + [lines[j]] + PlainLines(isMarker, lines[j + 1..])
  {
    forall i | 0 <= i < j ensures !AcceptedAt(isMarker, lines, clock, table, i) {
      ZeroCountNoMarker(isMarker, lines[..j]);
      assert lines[..j][i] == lines[i];
    }
    assert AcceptedAt(isMarker, lines, clock, table, j) by {
      assert LastProcessTime(table, Marker) == 0;
    }
    assert MarkerCount(isMarker, lines[..j + 1]) == 1 by {
      MarkerCountSnoc(isMarker, lines[..j], lines[j]);
      assert lines[..j] + [lines[j]] == lines[..j + 1];
    }
    FirstAcceptedIsKept(isMarker, lines, clock, table, j);
  }

  /**
   A batch that kept a marker line is followed by one whose clock readings all
   lie within 5000 ms of the time the gate recorded: the second batch shows
   no marker line at all.
   */
  lemma NextBatchWithinWindow(isMarker: string -> bool, lines: seq<string>, clock: seq<int>, table: map<string, int>,
                              next: seq<string>, nextClock: seq<int>)
    requires |clock| == |lines| && |nextClock| == |next|
    requires Scan(isMarker, lines, clock, table).logged
    requires forall i :: 0 <= i < |nextClock| ==>
               nextClock[i] - LastProcessTime(Scan(isMarker, lines, clock, table).table, Marker) <= DebounceDuration
    ensures !Scan(isMarker, next, nextClock, Scan(isMarker, lines, clock, table).table).logged
    ensures MarkerCount(isMarker, Scan(isMarker, next, nextClock, Scan(isMarker, lines, clock, table).table).kept) == 0
  {
    var after := Scan(isMarker, lines, clock, table).table;
    LoggedMeansAccepted(isMarker, next, nextClock, after);
    KeptMarkerCount(isMarker, next, nextClock, after);
  }

  /**
   With a gate that has never seen the marker (as after "clear all") and a
   clock past 5000 ms, the batch lets a marker line through exactly when it
   has one; the gate then records the marker key and was called only once.
   */
  lemma FreshGateAcceptsFirstMarker(isMarker: string -> bool, lines: seq<string>, clock: seq<int>, table: map<string, int>)
    requires |clock| == |lines|
    requires Marker !in table
    requires forall i :: 0 <= i < |clock| ==> clock[i] > DebounceDuration
    ensures Scan(isMarker, lines, clock, table).logged <==> MarkerCount(isMarker, lines) > 0
    ensures Scan(isMarker, lines, clock, table).logged <==> Marker in Scan(isMarker, lines, clock, table).table
    ensures Scan(isMarker, lines, clock, table).logged ==> Scan(isMarker, lines, clock, table).offers == 1
  {
    if MarkerCount(isMarker, lines) > 0 {
      var j := FirstMarkerLine(isMarker, lines);
      FreshGateKeepsFirstMarker(isMarker, lines, clock, table, j);
    } else {
      ZeroCountNoMarker(isMarker, lines);
      NoMarkerKeepsAll(isMarker, lines, clock, table);
    }
  }

  // ---------------------------------------------------------------------------
  // The activity's marker test, and a worked batch

  /** Scanning one more line at the end is one more turn of the loop. */
  lemma ScanSnoc(isMarker: string -> bool, lines: seq<string>, clock: seq<int>, table: map<string, int>, x: string, t: int)
    requires |clock| == |lines|
    ensures Scan(isMarker, lines + [x], clock + [t], table)
         == StepLine(isMarker, Scan(isMarker, lines, clock, table), x, t)
  {
    assert (lines + [x])[..|lines|] == lines && (clock + [t])[..|clock|] == clock;
  }

  /**
   Two marker lines and three plain lines in one batch, on a gate that has
   not seen the marker and a clock past 5000 ms: the first marker line is let
   through, the second is dropped without asking the gate, the plain lines
   are all kept.
   */
  lemma TwoMarkerBatch(isMarker: string -> bool, a: string, m1: string, b: string, m2: string, c: string,
                       t: seq<int>, table: map<string, int>)
    requires !isMarker(a) && !isMarker(b) && !isMarker(c) && isMarker(m1) && isMarker(m2)
    requires |t| == 5 && t[1] > DebounceDuration
    requires Marker !in table
    ensures Scan(isMarker, [a, m1, b, m2, c], t, table)
         == Batch([a, m1, b, c], table[Marker := t[1]], true, 1)
  {
    var after := table[Marker := t[1]];
    ScanSnoc(isMarker, [], [], table, a, t[0]);
    assert [] + [a] == [a] && [] + [t[0]] == [t[0]];
    assert Scan(isMarker, [a], [t[0]], table) == Batch([a], table, false, 0);
    ScanSnoc(isMarker, [a], [t[0]], table, m1, t[1]);
    assert [a] + [m1] == [a, m1] && [t[0]] + [t[1]] == [t[0], t[1]];
    assert Scan(isMarker, [a, m1], [t[0], t[1]], table) == Batch([a, m1], after, true, 1);
    ScanSnoc(isMarker, [a, m1], [t[0], t[1]], table, b, t[2]);
    assert [a, m1] + [b] == [a, m1, b] && [t[0], t[1]] + [t[2]] == t[..3];
    assert Scan(isMarker, [a, m1, b], t[..3], table) == Batch([a, m1, b], after, true, 1);
    ScanSnoc(isMarker, [a, m1, b], t[..3], table, m2, t[3]);
    assert [a, m1, b] + [m2] == [a, m1, b, m2] && t[..3] + [t[3]] == t[..4];
    assert Scan(isMarker, [a, m1, b, m2], t[..4], table) == Batch([a, m1, b], after, true, 1);
    ScanSnoc(isMarker, [a, m1, b, m2], t[..4], table, c, t[4]);
    assert [a, m1, b, m2] + [c] == [a, m1, b, m2, c] && t[..4] + [t[4]] == t;
  }

  /** A line holding the marker anywhere, in any letter case, is a marker line. */
  lemma MarkerAnywhere(x: string, m: string, y: string)
    requires Lower(m) == Lower(Marker)
    ensures IsMarkerLine(x + m + y)
  {
    var line := x + m + y;
    assert line[|x|..] == m + y;
    assert Lower(m + y)[..|m|] == Lower(m);
    RegionMatchesIsLowerPrefix(m + y, Marker);
    MatchAtIndex(line, Marker, |x|);
  }
}
