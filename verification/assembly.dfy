/** Grid assembly: the loop that stacks the blocks of the three report
    groups into one grid and records where each group's title band,
    column header and trailing separator sit. */
module Assembly {
  import opened Wrappers
  import opened Records
  import opened Extraction

  /** The grid and its bookkeeping: `master_rows`, `headline_indices`,
      `header_indices`, `separator_indices` and `machine_info`. */
  datatype Report = Report(
    rows: seq<Row>,
    headlines: seq<nat>,
    headers: seq<nat>,
    separators: seq<nat>,
    info: seq<string>)

  const EmptyReport: Report := Report([], [], [], [], [])

  /** What the loop sees for one group: the value `get_machine_rows`
      returned and the group's display label. */
  datatype Slot = Slot(res: Option<seq<Row>>, display: string)

  /** The block a group contributes, if any. */
  function GroupRows(t: Table, g: Target): Option<seq<Row>> {
    MachineRows(t, g.csvName, g.displayName, g.threshold)
  }

  /** The loop's view of every group, in order. */
  function Slots(t: Table, targets: seq<Target>): (s: seq<Slot>)
    ensures |s| == |targets|
    ensures forall i :: 0 <= i < |s| ==> s[i] == Slot(GroupRows(t, targets[i]), targets[i].displayName)
  {
    seq(|targets|, i requires 0 <= i < |targets| => Slot(GroupRows(t, targets[i]), targets[i].displayName))
  }

  /** Python's `if res:`, true for a non-empty list and false for `None`
      and for an empty list. */
  predicate Yields(s: Slot) {
    s.res.Some? && |s.res.value| > 0
  }

  /** One iteration of the loop, for the group at position `i`.  A group
      without a block changes nothing.  A group with a block records its
      title-band index (the current row count), its header index, its
      label, appends its rows, and, when its position is 0 or 1, appends a
      blank separator row whatever the later groups yield. */
  function Step(acc: Report, i: nat, s: Slot): (r: Report)
    ensures !Yields(s) ==> r == acc
    ensures && acc.rows <= r.rows && acc.headlines <= r.headlines && acc.headers <= r.headers
            && acc.separators <= r.separators && acc.info <= r.info
    ensures var added := if Yields(s) then 1 else 0;
      && |r.headlines| == |acc.headlines| + added && |r.headers| == |acc.headers| + added
      && |r.info| == |acc.info| + added
    ensures Yields(s) ==> r.headlines[|acc.headlines|] == |acc.rows| && r.info[|acc.info|] == s.display
    ensures |r.separators| == |acc.separators| + (if Yields(s) && i < 2 then 1 else 0)
  {
    if !Yields(s) then acc
    else
      var h := |acc.rows|;
      var grown := Report(acc.rows + s.res.value, acc.headlines + [h], acc.headers + [h + 1],
                          acc.separators, acc.info + [s.display]);
      if i < 2 then
        grown.(rows := grown.rows + [BlankRow], separators := grown.separators + [|grown.rows|])
      else grown
  }

  /** The report after the loop has processed the first `n` groups. */
  function AssemblePrefix(slots: seq<Slot>, n: nat): (r: Report)
    requires n <= |slots|
    ensures |r.headers| == |r.headlines| == |r.info| <= n
    ensures |r.separators| <= |r.headlines| && |r.separators| <= 2
    decreases n
  {
    if n == 0 then EmptyReport
    else Step(AssemblePrefix(slots, n - 1), n - 1, slots[n - 1])
  }

  /** The report built from all groups. */
  function Assemble(t: Table, targets: seq<Target>): Report {
    AssembleSlots(Slots(t, targets))
  }

  /** What the finished grid looks like, for the groups `targets` over the
      table `t`: each header row directly follows its title band inside the
      grid; the k-th label is that of the k-th group whose
      `get_machine_rows` returns a block; there is one separator per such
      group among the first two, each a blank row of the grid; the grid
      holds the block rows plus the separators; and no row is recorded
      under two of the three index lists. */
  ghost predicate GridFactsHold(t: Table, targets: seq<Target>, rep: Report) {
    && (var y := Yielding(Slots(t, targets), |targets|);
        && |rep.headlines| == |y| && |rep.headers| == |y| && |rep.info| == |y|
        && forall k :: 0 <= k < |y| ==>
             && GroupRows(t, targets[y[k]]).Some?
             && rep.info[k] == targets[y[k]].displayName
             && rep.headers[k] == rep.headlines[k] + 1
             && rep.headers[k] < |rep.rows|)
    && |rep.separators| == |Yielding(Slots(t, targets), Min2(|targets|))|
    && |rep.rows| == BlockRows(Slots(t, targets), |targets|) + |rep.separators|
    && (forall x :: x in rep.headlines ==> x !in rep.headers && x !in rep.separators)
    && (forall x :: x in rep.headers ==> x !in rep.separators)
    && (forall x :: x in rep.separators ==> x < |rep.rows| && rep.rows[x] == BlankRow)
  }

  /** The assembly loop written the way the program runs it: call
      `get_machine_rows` for each group in turn and extend the grid. */
  method BuildReport(t: Table, targets: seq<Target>) returns (rep: Report)
    ensures rep == Assemble(t, targets)
    ensures GridFactsHold(t, targets, rep)
  {
    ghost var slots := Slots(t, targets);
    rep := EmptyReport;
    var i := 0;
    while i < |targets|
      invariant 0 <= i <= |targets|
      invariant rep == AssemblePrefix(slots, i)
    {
      var g := targets[i];
      var res := MachineRows(t, g.csvName, g.displayName, g.threshold);
      assert slots[i] == Slot(res, g.displayName);
      rep := AppendGroup(rep, i, res, g.displayName);
      i := i + 1;
    }
    GridFacts(t, targets, rep);
  }

  /** The body of the loop for the group at position `i`, updating the
      five accumulators in place. */
  method AppendGroup(acc: Report, i: nat, res: Option<seq<Row>>, displayName: string) returns (rep: Report)
    ensures rep == Step(acc, i, Slot(res, displayName))
  {
    var masterRows, headlineIndices, headerIndices, separatorIndices, machineInfo :=
      acc.rows, acc.headlines, acc.headers, acc.separators, acc.info;
    if res.Some? && |res.value| > 0 {
      headlineIndices := headlineIndices + [|masterRows|];
      headerIndices := headerIndices + [|masterRows| + 1];
      machineInfo := machineInfo + [displayName];
      masterRows := masterRows + res.value;
      if i < 2 {
        separatorIndices := separatorIndices + [|masterRows|];
        masterRows := masterRows + [BlankRow];
      }
    }
    rep := Report(masterRows, headlineIndices, headerIndices, separatorIndices, machineInfo);
  }

  /** The facts `BuildReport` promises about the grid, gathered from the
      layout lemmas below. */
  lemma GridFacts(t: Table, targets: seq<Target>, rep: Report)
    requires rep == Assemble(t, targets)
    ensures GridFactsHold(t, targets, rep)
  {
    var slots := Slots(t, targets);
    SlotsHaveHeaders(t, targets);
    assert rep == AssembleSlots(slots);
    HeaderFollowsHeadline(slots);
    InfoNamesYieldingGroups(slots);
    SeparatorPlacement(slots);
    RowCount(slots);
    IndicesDisjointAndInRange(slots);
  }

  // ---------------------------------------------------------------------
  // Reference definitions the layout is stated against

  /** The positions, among the first `n`, of the groups that yield a block. */
  function Yielding(slots: seq<Slot>, n: nat): (y: seq<nat>)
    requires n <= |slots|
    ensures forall k :: 0 <= k < |y| ==> y[k] < n && Yields(slots[y[k]])
    ensures forall i :: 0 <= i < n && Yields(slots[i]) ==> i in y
    ensures forall a, b :: 0 <= a < b < |y| ==> y[a] < y[b]
    decreases n
  {
    if n == 0 then []
    else if Yields(slots[n - 1]) then Yielding(slots, n - 1) + [n - 1]
    else Yielding(slots, n - 1)
  }

  /** The rows the group at position `p` contributes before any separator. */
  function BlockAt(slots: seq<Slot>, p: nat): seq<Row> {
    if p < |slots| && Yields(slots[p]) then slots[p].res.value else []
  }

  /** Total length of the blocks of the first `n` groups. */
  function BlockRows(slots: seq<Slot>, n: nat): nat
    requires n <= |slots|
    decreases n
  {
    if n == 0 then 0 else BlockRows(slots, n - 1) + |BlockAt(slots, n - 1)|
  }

  function Min2(n: nat): nat {
    if n < 2 then n else 2
  }

  /** Every yielded block holds at least its title row and header row. */
  predicate BlocksHaveHeader(slots: seq<Slot>) {
    forall i :: 0 <= i < |slots| && Yields(slots[i]) ==> |slots[i].res.value| >= 2
  }

  /** One past the last row belonging to the k-th yielding group: its
      block and, if it has one, its separator. */
  function BlockEnd(slots: seq<Slot>, rep: Report, y: seq<nat>, k: nat): int
    requires k < |rep.headlines| && k < |y|
  {
    rep.headlines[k] + |BlockAt(slots, y[k])| + (if k < |rep.separators| then 1 else 0)
  }

  // ---------------------------------------------------------------------
  // The layout invariant, stated for a report `rep` whose yielding groups
  // sit at positions `y`

  ghost predicate SameLength(y: seq<nat>, rep: Report) {
    |rep.headlines| == |y| && |rep.headers| == |y| && |rep.info| == |y| && |rep.separators| <= |y|
  }

  ghost predicate Labels(slots: seq<Slot>, y: seq<nat>, rep: Report)
    requires SameLength(y, rep)
  {
    && (forall k :: 0 <= k < |y| ==> rep.headers[k] == rep.headlines[k] + 1)
    && (forall k :: 0 <= k < |y| ==> y[k] < |slots| && rep.info[k] == slots[y[k]].display)
    && (forall k :: 0 <= k < |y| ==> (y[k] < 2 <==> k < |rep.separators|))
    && (forall k :: 0 <= k < |rep.separators| ==>
          rep.separators[k] == rep.headlines[k] + |BlockAt(slots, y[k])|)
  }

  /** Blocks follow each other with no gap: the first starts at row 0 and
      each next one starts where the previous block (and its separator)
      ends; the grid ends where the last one does. */
  ghost predicate Chained(slots: seq<Slot>, y: seq<nat>, rep: Report)
    requires SameLength(y, rep)
  {
    && (|y| == 0 ==> |rep.rows| == 0)
    && (|y| > 0 ==> rep.headlines[0] == 0)
    && (forall k :: 0 <= k < |y| - 1 ==> BlockEnd(slots, rep, y, k) == rep.headlines[k + 1])
    && (|y| > 0 ==> |rep.rows| == BlockEnd(slots, rep, y, |y| - 1))
  }

  ghost predicate Bounded(slots: seq<Slot>, y: seq<nat>, rep: Report)
    requires SameLength(y, rep)
  {
    forall k :: 0 <= k < |y| ==> BlockEnd(slots, rep, y, k) <= |rep.rows|
  }

  ghost predicate Ordered(slots: seq<Slot>, y: seq<nat>, rep: Report)
    requires SameLength(y, rep)
  {
    forall a, b :: 0 <= a < b < |y| ==> BlockEnd(slots, rep, y, a) <= rep.headlines[b]
  }

  ghost predicate Contiguous(slots: seq<Slot>, y: seq<nat>, rep: Report)
    requires SameLength(y, rep)
  {
    Chained(slots, y, rep) && Bounded(slots, y, rep) && Ordered(slots, y, rep)
  }

  /** The k-th contributed block sits unchanged at its title-band index. */
  ghost predicate BlockInPlace(slots: seq<Slot>, y: seq<nat>, rep: Report, k: nat)
    requires SameLength(y, rep) && k < |y|
  {
    && rep.headlines[k] + |BlockAt(slots, y[k])| <= |rep.rows|
    && rep.rows[rep.headlines[k] .. rep.headlines[k] + |BlockAt(slots, y[k])|] == BlockAt(slots, y[k])
  }

  /** The k-th separator index holds a blank row of the grid. */
  ghost predicate SeparatorBlank(rep: Report, k: nat)
    requires k < |rep.separators|
  {
    rep.separators[k] < |rep.rows| && rep.rows[rep.separators[k]] == BlankRow
  }

  ghost predicate Contents(slots: seq<Slot>, y: seq<nat>, rep: Report)
    requires SameLength(y, rep)
  {
    && (forall k: nat :: k < |y| ==> BlockInPlace(slots, y, rep, k))
    && (forall k: nat :: k < |rep.separators| ==> SeparatorBlank(rep, k))
  }

  ghost predicate Layout(slots: seq<Slot>, y: seq<nat>, rep: Report) {
    && SameLength(y, rep)
    && Labels(slots, y, rep)
    && Contiguous(slots, y, rep)
    && Contents(slots, y, rep)
  }

  /** The full description of the grid after `n` groups: the layout over
      the yielding positions, the separator count, and the row count. */
  ghost predicate Laid(slots: seq<Slot>, n: nat, rep: Report)
    requires n <= |slots|
  {
    && Layout(slots, Yielding(slots, n), rep)
    && |rep.separators| == |Yielding(slots, Min2(n))|
    && |rep.rows| == BlockRows(slots, n) + |rep.separators|
  }

  // ---------------------------------------------------------------------
  // The invariant holds after every prefix of the loop

  /** The report after one block-taking step, in terms of the one before. */
  ghost predicate Took(slots: seq<Slot>, p: nat, prev: Report, rep: Report)
    requires p < |slots| && Yields(slots[p])
  {
    var b, h := slots[p].res.value, |prev.rows|;
    && rep.headlines == prev.headlines + [h]
    && rep.headers == prev.headers + [h + 1]
    && rep.info == prev.info + [slots[p].display]
    && (p < 2 ==> rep.rows == prev.rows + b + [BlankRow] && rep.separators == prev.separators + [h + |b|])
    && (p >= 2 ==> rep.rows == prev.rows + b && rep.separators == prev.separators)
  }

  /** What the step lemmas need to know about the earlier positions. */
  ghost predicate Before(slots: seq<Slot>, y: seq<nat>, p: nat, prev: Report)
    requires SameLength(y, prev)
  {
    && p < |slots| && Yields(slots[p])
    && (forall k :: 0 <= k < |y| ==> y[k] < p)
    && (p < 2 ==> |prev.separators| == |y|)
  }

  lemma TakeLabels(slots: seq<Slot>, y: seq<nat>, p: nat, prev: Report, rep: Report)
    requires SameLength(y, prev) && Labels(slots, y, prev) && Before(slots, y, p, prev)
    requires Took(slots, p, prev, rep)
    ensures SameLength(y + [p], rep) && Labels(slots, y + [p], rep)
  {
    var y' := y + [p];
    assert BlockAt(slots, p) == slots[p].res.value;
    assert forall k :: 0 <= k < |y| ==> y'[k] == y[k];
  }

  /** Block ends of the earlier groups do not move when a block is added. */
  lemma TakeKeepsEnds(slots: seq<Slot>, y: seq<nat>, p: nat, prev: Report, rep: Report)
    requires SameLength(y, prev) && Before(slots, y, p, prev)
    requires Took(slots, p, prev, rep)
    ensures SameLength(y + [p], rep)
    ensures forall k :: 0 <= k < |y| ==>
      (y + [p])[k] == y[k] && BlockEnd(slots, rep, y + [p], k) == BlockEnd(slots, prev, y, k)
    ensures BlockEnd(slots, rep, y + [p], |y|) == |rep.rows|
    ensures rep.headlines[|y|] == |prev.rows|
  {
    assert BlockAt(slots, p) == slots[p].res.value;
  }

  lemma TakeChained(slots: seq<Slot>, y: seq<nat>, p: nat, prev: Report, rep: Report)
    requires SameLength(y, prev) && Chained(slots, y, prev) && Before(slots, y, p, prev)
    requires Took(slots, p, prev, rep)
    ensures SameLength(y + [p], rep) && Chained(slots, y + [p], rep)
  {
    TakeKeepsEnds(slots, y, p, prev, rep);
  }

  lemma TakeBounded(slots: seq<Slot>, y: seq<nat>, p: nat, prev: Report, rep: Report)
    requires SameLength(y, prev) && Bounded(slots, y, prev) && Before(slots, y, p, prev)
    requires Took(slots, p, prev, rep)
    ensures SameLength(y + [p], rep) && Bounded(slots, y + [p], rep)
  {
    TakeKeepsEnds(slots, y, p, prev, rep);
  }

  lemma TakeOrdered(slots: seq<Slot>, y: seq<nat>, p: nat, prev: Report, rep: Report)
    requires SameLength(y, prev) && Bounded(slots, y, prev) && Ordered(slots, y, prev)
    requires Before(slots, y, p, prev)
    requires Took(slots, p, prev, rep)
    ensures SameLength(y + [p], rep) && Ordered(slots, y + [p], rep)
  {
    TakeKeepsEnds(slots, y, p, prev, rep);
    var y' := y + [p];
    forall a, c | 0 <= a < c < |y'|
      ensures BlockEnd(slots, rep, y', a) <= rep.headlines[c]
    {
      if c < |y| {
        assert BlockEnd(slots, prev, y, a) <= prev.headlines[c];
      } else {
        assert BlockEnd(slots, prev, y, a) <= |prev.rows|;
      }
    }
  }

  /** A block-taking step of the fold has the shape `Took` describes. */
  lemma StepTakes(slots: seq<Slot>, p: nat, prev: Report)
    requires p < |slots| && Yields(slots[p])
    ensures Took(slots, p, prev, Step(prev, p, slots[p]))
  {
  }

  lemma TakeContents(slots: seq<Slot>, y: seq<nat>, p: nat, prev: Report, rep: Report)
    requires SameLength(y, prev) && Contents(slots, y, prev) && Before(slots, y, p, prev)
    requires Took(slots, p, prev, rep)
    ensures SameLength(y + [p], rep) && Contents(slots, y + [p], rep)
  {
    var y', h := y + [p], |prev.rows|;
    var tail := rep.rows[h..];
    assert rep.rows == prev.rows + tail;
    forall k: nat | k < |y'| ensures BlockInPlace(slots, y', rep, k) {
      if k < |y| {
        assert BlockInPlace(slots, y, prev, k);
        TakeKeepsBlock(slots, y, p, prev, rep, tail, k);
      } else {
        TakeNewBlock(slots, y, p, prev, rep);
      }
    }
    forall k: nat | k < |rep.separators| ensures SeparatorBlank(rep, k) {
      if k < |prev.separators| {
        assert SeparatorBlank(prev, k);
        assert rep.rows[prev.separators[k]] == prev.rows[prev.separators[k]];
      }
    }
  }

  lemma TakeKeepsBlock(slots: seq<Slot>, y: seq<nat>, p: nat, prev: Report, rep: Report, tail: seq<Row>, k: nat)
    requires SameLength(y, prev) && Before(slots, y, p, prev) && Took(slots, p, prev, rep)
    requires k < |y| && BlockInPlace(slots, y, prev, k)
    requires rep.rows == prev.rows + tail
    ensures SameLength(y + [p], rep) && BlockInPlace(slots, y + [p], rep, k)
  {
    var a := prev.headlines[k];
    var c := a + |BlockAt(slots, y[k])|;
    assert (y + [p])[k] == y[k];
    SliceOfPrefix(prev.rows, tail, a, c);
  }

  lemma TakeNewBlock(slots: seq<Slot>, y: seq<nat>, p: nat, prev: Report, rep: Report)
    requires SameLength(y, prev) && Before(slots, y, p, prev) && Took(slots, p, prev, rep)
    ensures SameLength(y + [p], rep) && BlockInPlace(slots, y + [p], rep, |y|)
  {
    var b, h := slots[p].res.value, |prev.rows|;
    assert BlockAt(slots, p) == b;
    assert (y + [p])[|y|] == p;
    assert rep.rows[h .. h + |b|] == b;
  }

  lemma SliceOfPrefix(front: seq<Row>, back: seq<Row>, i: nat, j: nat)
    requires i <= j <= |front|
    ensures (front + back)[i..j] == front[i..j]
  {
  }


  lemma TakeKeepsLaid(slots: seq<Slot>, n: nat)
    requires 0 < n <= |slots| && Yields(slots[n - 1])
    requires Laid(slots, n - 1, AssemblePrefix(slots, n - 1))
    ensures Laid(slots, n, AssemblePrefix(slots, n))
  {
    var p := n - 1;
    var prev, rep := AssemblePrefix(slots, p), AssemblePrefix(slots, n);
    assert rep == Step(prev, p, slots[p]);
    StepTakes(slots, p, prev);
    TakeLaid(slots, n, prev, rep);
  }

  /** One block-taking step keeps the invariant, for any reports related
      as `Took` says. */
  lemma TakeLaid(slots: seq<Slot>, n: nat, prev: Report, rep: Report)
    requires 0 < n <= |slots| && Yields(slots[n - 1])
    requires Laid(slots, n - 1, prev) && Took(slots, n - 1, prev, rep)
    ensures Laid(slots, n, rep)
  {
    var p := n - 1;
    var y := Yielding(slots, p);
    assert Yielding(slots, n) == y + [p];
    YieldingMin2Take(slots, n);
    assert Before(slots, y, p, prev);
    TakeLayout(slots, y, p, prev, rep);
    assert BlockRows(slots, n) == BlockRows(slots, p) + |slots[p].res.value|;
    LaidFromParts(slots, n, rep);
  }

  lemma TakeLayout(slots: seq<Slot>, y: seq<nat>, p: nat, prev: Report, rep: Report)
    requires Layout(slots, y, prev) && Before(slots, y, p, prev) && Took(slots, p, prev, rep)
    ensures Layout(slots, y + [p], rep)
  {
    TakeLabels(slots, y, p, prev, rep);
    TakeChained(slots, y, p, prev, rep);
    TakeBounded(slots, y, p, prev, rep);
    TakeOrdered(slots, y, p, prev, rep);
    TakeContents(slots, y, p, prev, rep);
  }

  lemma LaidFromParts(slots: seq<Slot>, n: nat, rep: Report)
    requires n <= |slots|
    requires Layout(slots, Yielding(slots, n), rep)
    requires |rep.separators| == |Yielding(slots, Min2(n))|
    requires |rep.rows| == BlockRows(slots, n) + |rep.separators|
    ensures Laid(slots, n, rep)
  {
  }

  lemma SkipKeepsLaid(slots: seq<Slot>, n: nat)
    requires 0 < n <= |slots| && !Yields(slots[n - 1])
    requires Laid(slots, n - 1, AssemblePrefix(slots, n - 1))
    ensures Laid(slots, n, AssemblePrefix(slots, n))
  {
    assert AssemblePrefix(slots, n) == AssemblePrefix(slots, n - 1);
    assert Yielding(slots, n) == Yielding(slots, n - 1);
    assert BlockRows(slots, n) == BlockRows(slots, n - 1);
    YieldingMin2Skip(slots, n);
  }

  lemma YieldingMin2Skip(slots: seq<Slot>, n: nat)
    requires 0 < n <= |slots| && !Yields(slots[n - 1])
    ensures Yielding(slots, Min2(n)) == Yielding(slots, Min2(n - 1))
  {
  }

  lemma YieldingMin2Take(slots: seq<Slot>, n: nat)
    requires 0 < n <= |slots| && Yields(slots[n - 1])
    ensures n - 1 < 2 ==> Min2(n) == n && Min2(n - 1) == n - 1
    ensures n - 1 >= 2 ==> Yielding(slots, Min2(n)) == Yielding(slots, Min2(n - 1))
  {
  }

  /** The layout invariant holds of the report after any number of groups. */
  lemma {:induction false} LaidAfter(slots: seq<Slot>, n: nat)
    requires n <= |slots|
    ensures Laid(slots, n, AssemblePrefix(slots, n))
    decreases n
  {
    if n > 0 {
      LaidAfter(slots, n - 1);
      if Yields(slots[n - 1]) {
        TakeKeepsLaid(slots, n);
      } else {
        SkipKeepsLaid(slots, n);
      }
    }
  }

  // ---------------------------------------------------------------------
  // From the invariant to the properties of the assembled grid.  These are
  // stated over the loop's per-group results `slots`, as the loop sees
  // them; `SlotsHaveHeaders` shows `get_machine_rows` meets their one
  // precondition.

  /** The report the loop builds from all per-group results. */
  function AssembleSlots(slots: seq<Slot>): Report {
    AssemblePrefix(slots, |slots|)
  }

  lemma LayoutAfter(slots: seq<Slot>)
    ensures Layout(slots, Yielding(slots, |slots|), AssembleSlots(slots))
  {
    LaidAfter(slots, |slots|);
  }

  lemma CountsAfter(slots: seq<Slot>)
    ensures |AssembleSlots(slots).separators| == |Yielding(slots, Min2(|slots|))|
    ensures |AssembleSlots(slots).rows| == BlockRows(slots, |slots|) + |AssembleSlots(slots).separators|
  {
    LaidAfter(slots, |slots|);
  }

  /** The results of `get_machine_rows` are the loop's slots, and every
      block it returns keeps its title row and header row. */
  lemma SlotsHaveHeaders(t: Table, targets: seq<Target>)
    ensures BlocksHaveHeader(Slots(t, targets))
    ensures forall i :: 0 <= i < |targets| ==>
      (Yields(Slots(t, targets)[i]) <==> GroupRows(t, targets[i]).Some?)
  {
  }

  /** Every row of every block the loop receives has seven cells. */
  predicate BlocksAreWide(slots: seq<Slot>) {
    forall i :: 0 <= i < |slots| && Yields(slots[i]) ==> RowsAreWide(slots[i].res.value)
  }

  predicate RowsAreWide(rows: seq<Row>) {
    forall row :: row in rows ==> |row| == WIDTH
  }

  lemma StepKeepsWide(acc: Report, i: nat, s: Slot)
    requires RowsAreWide(acc.rows)
    requires Yields(s) ==> RowsAreWide(s.res.value)
    ensures RowsAreWide(Step(acc, i, s).rows)
  {
    assert |BlankRow| == WIDTH;
  }

  lemma {:induction false} GridRowsWide(slots: seq<Slot>, n: nat)
    requires n <= |slots| && BlocksAreWide(slots)
    ensures RowsAreWide(AssemblePrefix(slots, n).rows)
    decreases n
  {
    if n > 0 {
      GridRowsWide(slots, n - 1);
      StepKeepsWide(AssemblePrefix(slots, n - 1), n - 1, slots[n - 1]);
    }
  }

  /** Every row of the assembled grid, separators included, has the seven
      cells of the report's columns. */
  lemma GridHasSevenColumns(t: Table, targets: seq<Target>)
    ensures forall row :: row in Assemble(t, targets).rows ==> |row| == WIDTH
  {
    var slots := Slots(t, targets);
    forall i | 0 <= i < |slots| && Yields(slots[i]) ensures RowsAreWide(slots[i].res.value) {
      var g := targets[i];
      var b := Block(Selection(t, g.csvName, g.threshold), g.displayName);
      assert slots[i].res.value == b;
      BlockRowsHaveSevenCells(Selection(t, g.csvName, g.threshold), g.displayName);
      forall row | row in b ensures |row| == WIDTH {
        var k :| 0 <= k < |b| && b[k] == row;
      }
    }
    GridRowsWide(slots, |slots|);
    assert RowsAreWide(Assemble(t, targets).rows);
  }

  lemma SeparatesOrder(slots: seq<Slot>, y: seq<nat>, rep: Report)
    requires SameLength(y, rep) && Ordered(slots, y, rep)
    requires forall k :: 0 <= k < |y| ==> |BlockAt(slots, y[k])| >= 2
    ensures forall a, c :: 0 <= a < c < |y| ==> rep.headlines[a] + 2 <= rep.headlines[c]
  {
    forall a, c | 0 <= a < c < |y| ensures rep.headlines[a] + 2 <= rep.headlines[c] {
      assert BlockEnd(slots, rep, y, a) <= rep.headlines[c];
    }
  }

  /** Index bookkeeping cannot collide: a row is at most one of title
      band, column header and separator, and every recorded index is a
      row of the grid. */
  lemma LayoutSeparates(slots: seq<Slot>, y: seq<nat>, rep: Report)
    requires SameLength(y, rep) && Labels(slots, y, rep) && Bounded(slots, y, rep) && Ordered(slots, y, rep)
    requires forall k :: 0 <= k < |y| ==> |BlockAt(slots, y[k])| >= 2
    ensures forall a, c :: 0 <= a < c < |y| ==> rep.headlines[a] < rep.headlines[c]
    ensures forall a, c :: 0 <= a < |y| && 0 <= c < |y| ==> rep.headlines[a] != rep.headers[c]
    ensures forall a, c :: 0 <= a < |y| && 0 <= c < |rep.separators| ==>
      rep.headlines[a] != rep.separators[c] && rep.headers[a] != rep.separators[c]
    ensures forall a :: 0 <= a < |y| ==> rep.headers[a] < |rep.rows|
  {
    SeparatesOrder(slots, y, rep);
    forall a, c | 0 <= a < |y| && 0 <= c < |rep.separators|
      ensures rep.headlines[a] != rep.separators[c] && rep.headers[a] != rep.separators[c]
    {
      if c < a {
        assert BlockEnd(slots, rep, y, c) <= rep.headlines[a];
      }
    }
    forall a | 0 <= a < |y| ensures rep.headers[a] < |rep.rows| {
      assert BlockEnd(slots, rep, y, a) <= |rep.rows|;
    }
  }

  /** Every block listed at a yielding position keeps its two fixed rows. */
  lemma YieldingBlocksHaveHeader(slots: seq<Slot>)
    requires BlocksHaveHeader(slots)
    ensures var y := Yielding(slots, |slots|);
      forall k :: 0 <= k < |y| ==> |BlockAt(slots, y[k])| >= 2
  {
  }

  /** For every group that contributes a block, the header row index is
      the title-band index plus one, and both are rows of the grid. */
  lemma HeaderFollowsHeadline(slots: seq<Slot>)
    requires BlocksHaveHeader(slots)
    ensures var rep := AssembleSlots(slots);
      && |rep.headers| == |rep.headlines|
      && forall k :: 0 <= k < |rep.headlines| ==>
           rep.headers[k] == rep.headlines[k] + 1 && rep.headers[k] < |rep.rows|
  {
    LayoutAfter(slots);
    YieldingBlocksHaveHeader(slots);
    LayoutSeparates(slots, Yielding(slots, |slots|), AssembleSlots(slots));
  }

  /** `machine_info[k]` is the display label of the k-th group that
      contributes a block, and the k-th title band sits at the top of that
      group's block, whose rows appear in the grid unchanged. */
  lemma InfoNamesYieldingGroups(slots: seq<Slot>)
    ensures var rep, y := AssembleSlots(slots), Yielding(slots, |slots|);
      && |rep.info| == |y| && |rep.headlines| == |y|
      && forall k :: 0 <= k < |y| ==>
           && rep.info[k] == slots[y[k]].display
           && rep.headlines[k] + |slots[y[k]].res.value| <= |rep.rows|
           && rep.rows[rep.headlines[k] .. rep.headlines[k] + |slots[y[k]].res.value|] == slots[y[k]].res.value
  {
    var rep, y := AssembleSlots(slots), Yielding(slots, |slots|);
    LayoutAfter(slots);
    assert Layout(slots, y, rep);
    InfoFromLayout(slots, y, rep);
  }

  lemma InfoFromLayout(slots: seq<Slot>, y: seq<nat>, rep: Report)
    requires Layout(slots, y, rep)
    requires forall k :: 0 <= k < |y| ==> y[k] < |slots| && Yields(slots[y[k]])
    ensures |rep.info| == |y| && |rep.headlines| == |y|
    ensures forall k :: 0 <= k < |y| ==> slots[y[k]].res.Some?
    ensures forall k :: 0 <= k < |y| ==>
      && rep.info[k] == slots[y[k]].display
      && rep.headlines[k] + |slots[y[k]].res.value| <= |rep.rows|
      && rep.rows[rep.headlines[k] .. rep.headlines[k] + |slots[y[k]].res.value|] == slots[y[k]].res.value
  {
    forall k | 0 <= k < |y|
      ensures && rep.headlines[k] + |slots[y[k]].res.value| <= |rep.rows|
              && rep.rows[rep.headlines[k] .. rep.headlines[k] + |slots[y[k]].res.value|] == slots[y[k]].res.value
    {
      assert BlockAt(slots, y[k]) == slots[y[k]].res.value;
      assert BlockInPlace(slots, y, rep, k);
    }
  }

  /** A group without a block adds no rows and no indices. */
  lemma SkippedGroupAddsNothing(slots: seq<Slot>, i: nat)
    requires i < |slots| && !Yields(slots[i])
    ensures AssemblePrefix(slots, i + 1) == AssemblePrefix(slots, i)
  {
  }

  /** Separators: one blank row directly after the block of each
      contributing group at position 0 or 1 and after no other, whatever
      the later groups yield.  Their number is the number of contributing
      groups among the first two. */
  lemma SeparatorPlacement(slots: seq<Slot>)
    ensures var rep, y := AssembleSlots(slots), Yielding(slots, |slots|);
      && |rep.separators| == |Yielding(slots, Min2(|slots|))|
      && |rep.separators| <= |y| == |rep.headlines|
      && (forall k :: 0 <= k < |y| ==> (y[k] < 2 <==> k < |rep.separators|))
      && forall k :: 0 <= k < |rep.separators| ==>
           && rep.separators[k] == rep.headlines[k] + |slots[y[k]].res.value|
           && rep.separators[k] < |rep.rows|
           && rep.rows[rep.separators[k]] == BlankRow
  {
    LayoutAfter(slots);
    CountsAfter(slots);
    SeparatorsFromLayout(slots, Yielding(slots, |slots|), AssembleSlots(slots));
  }

  lemma SeparatorsFromLayout(slots: seq<Slot>, y: seq<nat>, rep: Report)
    requires Layout(slots, y, rep)
    requires forall k :: 0 <= k < |y| ==> y[k] < |slots| && Yields(slots[y[k]])
    ensures |rep.separators| <= |y| == |rep.headlines|
    ensures forall k :: 0 <= k < |y| ==> (y[k] < 2 <==> k < |rep.separators|)
    ensures forall k :: 0 <= k < |rep.separators| ==>
      && rep.separators[k] == rep.headlines[k] + |slots[y[k]].res.value|
      && rep.separators[k] < |rep.rows|
      && rep.rows[rep.separators[k]] == BlankRow
  {
    forall k | 0 <= k < |y| ensures BlockAt(slots, y[k]) == slots[y[k]].res.value {
    }
    forall k | 0 <= k < |rep.separators|
      ensures rep.separators[k] < |rep.rows| && rep.rows[rep.separators[k]] == BlankRow
    {
      assert SeparatorBlank(rep, k);
    }
  }

  /** The title-band, header and separator indices are pairwise disjoint,
      all lie inside the grid, and the title bands come in grid order. */
  lemma IndicesDisjointAndInRange(slots: seq<Slot>)
    requires BlocksHaveHeader(slots)
    ensures var rep := AssembleSlots(slots);
      && (forall x :: x in rep.headlines ==> x < |rep.rows| && x !in rep.headers && x !in rep.separators)
      && (forall x :: x in rep.headers ==> x < |rep.rows| && x !in rep.separators)
      && (forall x :: x in rep.separators ==> x < |rep.rows|)
      && (forall a, c :: 0 <= a < c < |rep.headlines| ==> rep.headlines[a] < rep.headlines[c])
  {
    LayoutAfter(slots);
    YieldingBlocksHaveHeader(slots);
    IndicesFromLayout(slots, Yielding(slots, |slots|), AssembleSlots(slots));
  }

  lemma IndicesFromLayout(slots: seq<Slot>, y: seq<nat>, rep: Report)
    requires Layout(slots, y, rep)
    requires forall k :: 0 <= k < |y| ==> |BlockAt(slots, y[k])| >= 2
    ensures forall x :: x in rep.headlines ==> x < |rep.rows| && x !in rep.headers && x !in rep.separators
    ensures forall x :: x in rep.headers ==> x < |rep.rows| && x !in rep.separators
    ensures forall x :: x in rep.separators ==> x < |rep.rows|
    ensures forall a, c :: 0 <= a < c < |rep.headlines| ==> rep.headlines[a] < rep.headlines[c]
  {
    LayoutSeparates(slots, y, rep);
    DisjointAsSets(slots, y, rep);
  }

  lemma DisjointAsSets(slots: seq<Slot>, y: seq<nat>, rep: Report)
    requires Layout(slots, y, rep)
    requires forall a, c :: 0 <= a < |y| && 0 <= c < |y| ==> rep.headlines[a] != rep.headers[c]
    requires forall a, c :: 0 <= a < |y| && 0 <= c < |rep.separators| ==>
      rep.headlines[a] != rep.separators[c] && rep.headers[a] != rep.separators[c]
    requires forall a :: 0 <= a < |y| ==> rep.headers[a] < |rep.rows|
    ensures forall x :: x in rep.headlines ==> x < |rep.rows| && x !in rep.headers && x !in rep.separators
    ensures forall x :: x in rep.headers ==> x < |rep.rows| && x !in rep.separators
    ensures forall x :: x in rep.separators ==> x < |rep.rows|
  {
    forall x | x in rep.headlines
      ensures x < |rep.rows| && x !in rep.headers && x !in rep.separators
    {
      var a :| 0 <= a < |y| && rep.headlines[a] == x;
      assert rep.headers[a] == x + 1;
    }
    forall x | x in rep.headers ensures x < |rep.rows| && x !in rep.separators {
      var a :| 0 <= a < |y| && rep.headers[a] == x;
    }
    forall x | x in rep.separators ensures x < |rep.rows| {
      var c :| 0 <= c < |rep.separators| && rep.separators[c] == x;
      assert SeparatorBlank(rep, c);
    }
  }

  /** The grid holds exactly the rows of the contributed blocks plus the
      separators. */
  lemma RowCount(slots: seq<Slot>)
    ensures |AssembleSlots(slots).rows| == BlockRows(slots, |slots|) + |AssembleSlots(slots).separators|
  {
    CountsAfter(slots);
  }

  /** The grid is empty exactly when no group contributes a block. */
  lemma EmptyGridIffNothingYields(slots: seq<Slot>)
    ensures |AssembleSlots(slots).rows| == 0 <==> forall i :: 0 <= i < |slots| ==> !Yields(slots[i])
  {
    LayoutAfter(slots);
    var y := Yielding(slots, |slots|);
    if |y| > 0 {
      assert Yields(slots[y[0]]);
    }
  }

  // ---------------------------------------------------------------------
  // Trailing separator: the loop against the between-blocks layout

  /** As written, the grid ends with a blank separator row exactly when
      the last group that contributes a block sits at position 0 or 1
      (for example, when only the first group yields). */
  lemma TrailingSeparatorIff(slots: seq<Slot>)
    ensures var rep, y := AssembleSlots(slots), Yielding(slots, |slots|);
      |y| > 0 ==> (|rep.rows| - 1 in rep.separators <==> y[|y| - 1] < 2)
  {
    var rep, y := AssembleSlots(slots), Yielding(slots, |slots|);
    LayoutAfter(slots);
    TrailingFromLayout(slots, y, rep);
  }

  lemma TrailingFromLayout(slots: seq<Slot>, y: seq<nat>, rep: Report)
    requires SameLength(y, rep) && Labels(slots, y, rep) && Chained(slots, y, rep) && Ordered(slots, y, rep)
    requires forall k :: 0 <= k < |y| ==> y[k] < |slots| && Yields(slots[y[k]])
    ensures |y| > 0 ==> (|rep.rows| - 1 in rep.separators <==> y[|y| - 1] < 2)
  {
    if |y| > 0 {
      var last := |y| - 1;
      assert |BlockAt(slots, y[last])| >= 1;
      if y[last] < 2 {
        assert rep.separators[last] == |rep.rows| - 1;
      } else {
        forall k | 0 <= k < |rep.separators| ensures rep.separators[k] != |rep.rows| - 1 {
          assert BlockEnd(slots, rep, y, k) <= rep.headlines[last];
        }
      }
    }
  }

  /** Only the first of three groups yields: the grid ends with a
      separator, although no block follows it. */
  lemma OnlyFirstGroupYields(slots: seq<Slot>)
    requires |slots| == 3 && Yields(slots[0]) && !Yields(slots[1]) && !Yields(slots[2])
    ensures var rep := AssembleSlots(slots);
      |rep.headlines| == 1 && |rep.separators| == 1 && rep.separators[0] == |rep.rows| - 1
  {
    assert Yielding(slots, 3) == [0];
    TrailingSeparatorIff(slots);
    SeparatorPlacement(slots);
  }

  /** The between-blocks layout: a separator before every block but the
      first, so a separator sits only between two contributing groups and
      never after the last. */
  function StepBetween(acc: Report, s: Slot): Report {
    if !Yields(s) then acc
    else if |acc.headlines| == 0 then
      Report(acc.rows + s.res.value, acc.headlines + [|acc.rows|], acc.headers + [|acc.rows| + 1],
             acc.separators, acc.info + [s.display])
    else
      var h := |acc.rows| + 1;
      Report(acc.rows + [BlankRow] + s.res.value, acc.headlines + [h], acc.headers + [h + 1],
             acc.separators + [|acc.rows|], acc.info + [s.display])
  }

  function AssembleBetweenPrefix(slots: seq<Slot>, n: nat): Report
    requires n <= |slots|
    decreases n
  {
    if n == 0 then EmptyReport
    else StepBetween(AssembleBetweenPrefix(slots, n - 1), slots[n - 1])
  }

  /** The between-blocks assembly. */
  function AssembleBetween(slots: seq<Slot>): Report {
    AssembleBetweenPrefix(slots, |slots|)
  }

  ghost predicate Between(slots: seq<Slot>, y: seq<nat>, rep: Report) {
    && |rep.headlines| == |y| && |rep.headers| == |y| && |rep.info| == |y|
    && |rep.separators| == (if |y| == 0 then 0 else |y| - 1)
    && (|y| == 0 ==> |rep.rows| == 0)
    && (|y| > 0 ==> |rep.rows| == rep.headlines[|y| - 1] + |BlockAt(slots, y[|y| - 1])|)
    && (forall k :: 0 <= k < |y| ==>
          && rep.headers[k] == rep.headlines[k] + 1
          && y[k] < |slots|
          && rep.info[k] == slots[y[k]].display
          && rep.headlines[k] + |BlockAt(slots, y[k])| <= |rep.rows|)
    && (forall k :: 0 <= k < |rep.separators| ==>
          && rep.separators[k] == rep.headlines[k] + |BlockAt(slots, y[k])|
          && rep.separators[k] + 1 == rep.headlines[k + 1])
  }

  lemma BetweenStep(slots: seq<Slot>, y: seq<nat>, p: nat, prev: Report)
    requires Between(slots, y, prev) && p < |slots| && Yields(slots[p])
    ensures Between(slots, y + [p], StepBetween(prev, slots[p]))
  {
    var rep, y' := StepBetween(prev, slots[p]), y + [p];
    assert BlockAt(slots, p) == slots[p].res.value;
    assert forall k :: 0 <= k < |y| ==> y'[k] == y[k];
  }

  lemma {:induction false} BetweenAfter(slots: seq<Slot>, n: nat)
    requires n <= |slots|
    ensures Between(slots, Yielding(slots, n), AssembleBetweenPrefix(slots, n))
    decreases n
  {
    if n > 0 {
      BetweenAfter(slots, n - 1);
      BetweenNext(slots, n, AssembleBetweenPrefix(slots, n - 1));
    }
  }

  lemma BetweenNext(slots: seq<Slot>, n: nat, prev: Report)
    requires 0 < n <= |slots|
    requires Between(slots, Yielding(slots, n - 1), prev)
    ensures Between(slots, Yielding(slots, n), StepBetween(prev, slots[n - 1]))
  {
    if Yields(slots[n - 1]) {
      assert Yielding(slots, n) == Yielding(slots, n - 1) + [n - 1];
      BetweenStep(slots, Yielding(slots, n - 1), n - 1, prev);
    } else {
      assert Yielding(slots, n) == Yielding(slots, n - 1);
    }
  }

  /** With the between-blocks assembly, N contributing groups give exactly
      max(N - 1, 0) separators, each directly after one block and directly
      before the next title band, so none is ever the last row. */
  lemma BetweenSeparators(slots: seq<Slot>)
    ensures var rep, y := AssembleBetween(slots), Yielding(slots, |slots|);
      && |rep.headlines| == |y|
      && |rep.separators| == (if |y| == 0 then 0 else |y| - 1)
      && (forall k :: 0 <= k < |rep.separators| ==>
            && rep.separators[k] == rep.headlines[k] + |slots[y[k]].res.value|
            && rep.separators[k] + 1 == rep.headlines[k + 1])
      && (forall x :: x in rep.separators ==> x + 1 < |rep.rows|)
  {
    BetweenAfter(slots, |slots|);
    BetweenFacts(slots, Yielding(slots, |slots|), AssembleBetween(slots));
  }

  lemma BetweenFacts(slots: seq<Slot>, y: seq<nat>, rep: Report)
    requires Between(slots, y, rep)
    requires forall k :: 0 <= k < |y| ==> y[k] < |slots| && Yields(slots[y[k]])
    ensures forall k :: 0 <= k < |rep.separators| ==>
      rep.separators[k] == rep.headlines[k] + |slots[y[k]].res.value|
    ensures forall x :: x in rep.separators ==> x + 1 < |rep.rows|
  {
    forall k | 0 <= k < |y| ensures BlockAt(slots, y[k]) == slots[y[k]].res.value {
    }
    forall x | x in rep.separators ensures x + 1 < |rep.rows| {
      var k :| 0 <= k < |rep.separators| && rep.separators[k] == x;
      assert |BlockAt(slots, y[k + 1])| >= 1;
    }
  }
}
