/** Row roles: which way the renderer paints each grid row.  The program
    decides by membership in the index lists, in a fixed order: title
    band, then column header, then separator, else data row, shaded by
    the parity of the row's index in the whole grid. */
module Roles {
  import opened Wrappers
  import opened Records
  import opened Assembly

  /** Title band (carrying its caption), column header, blank separator,
      or data row (`shaded` for the grey rows). */
  datatype Role = TitleBand(caption: string) | ColumnHeader | Separator | Data(shaded: bool)

  /** The caption written into a title band after the group's label. */
  const CaptionSuffix: string := " 優秀台"

  /** Python's `list.index`: the first position holding `x`. */
  function IndexOf(s: seq<nat>, x: nat): (i: nat)
    requires x in s
    ensures i < |s| && s[i] == x
    ensures forall j :: 0 <= j < i ==> s[j] != x
    decreases |s|
  {
    if s[0] == x then 0 else 1 + IndexOf(s[1..], x)
  }

  /** The role of row `r`, by the program's order of tests. */
  function RoleOf(rep: Report, r: nat): (role: Role)
    requires |rep.headlines| <= |rep.info|
    ensures role.TitleBand? <==> r in rep.headlines
    ensures role.ColumnHeader? <==> r !in rep.headlines && r in rep.headers
    ensures role.Separator? <==> r !in rep.headlines && r !in rep.headers && r in rep.separators
    ensures role.Data? <==> r !in rep.headlines && r !in rep.headers && r !in rep.separators
    ensures role.Data? ==> (role.shaded <==> r % 2 == 0)
  {
    if r in rep.headlines then TitleBand(rep.info[IndexOf(rep.headlines, r)] + CaptionSuffix)
    else if r in rep.headers then ColumnHeader
    else if r in rep.separators then Separator
    else Data(r % 2 == 0)
  }

  /** What is handed to the renderer: nothing for an empty grid, else the
      role of every row. */
  function Render(rep: Report): (out: Option<seq<Role>>)
    requires |rep.headlines| <= |rep.info|
    ensures out.None? <==> |rep.rows| == 0
    ensures out.Some? ==> |out.value| == |rep.rows|
    ensures out.Some? ==> forall r :: 0 <= r < |rep.rows| ==> out.value[r] == RoleOf(rep, r)
  {
    if |rep.rows| == 0 then None
    else Some(seq(|rep.rows|, r requires 0 <= r < |rep.rows| => RoleOf(rep, r)))
  }

  // ---------------------------------------------------------------------
  // Roles of an assembled grid

  lemma InfoCoversHeadlines(slots: seq<Slot>)
    ensures |AssembleSlots(slots).headlines| == |AssembleSlots(slots).info|
  {
    InfoNamesYieldingGroups(slots);
  }

  /** On an assembled grid each row has exactly the role its index list
      says: the precedence order never has to break a tie, because the
      lists are disjoint.  Every other row is a data row, grey when its
      index in the whole grid is even. */
  lemma RolesOfAssembledGrid(slots: seq<Slot>, r: nat)
    requires BlocksHaveHeader(slots)
    requires r < |AssembleSlots(slots).rows|
    ensures var rep := AssembleSlots(slots);
      |rep.headlines| <= |rep.info|
      && (RoleOf(rep, r).TitleBand? <==> r in rep.headlines)
      && (RoleOf(rep, r).ColumnHeader? <==> r in rep.headers)
      && (RoleOf(rep, r).Separator? <==> r in rep.separators)
      && (RoleOf(rep, r).Data? <==> r !in rep.headlines && r !in rep.headers && r !in rep.separators)
      && (RoleOf(rep, r).Data? ==> (RoleOf(rep, r).shaded <==> r % 2 == 0))
  {
    InfoCoversHeadlines(slots);
    IndicesDisjointAndInRange(slots);
  }

  /** The k-th title band is captioned with the k-th contributing group's
      label followed by " 優秀台". */
  lemma TitleBandCaptions(slots: seq<Slot>, k: nat)
    requires BlocksHaveHeader(slots)
    requires k < |AssembleSlots(slots).headlines|
    ensures var rep, y := AssembleSlots(slots), Yielding(slots, |slots|);
      k < |y| && |rep.headlines| <= |rep.info|
      && RoleOf(rep, rep.headlines[k]) == TitleBand(slots[y[k]].display + CaptionSuffix)
  {
    var rep := AssembleSlots(slots);
    InfoNamesYieldingGroups(slots);
    IndicesDisjointAndInRange(slots);
    var x := rep.headlines[k];
    var i := IndexOf(rep.headlines, x);
    assert i == k;
  }

  /** Nothing is rendered exactly when no group contributes a block. */
  lemma NothingRenderedIffNoBlock(slots: seq<Slot>)
    ensures var rep := AssembleSlots(slots);
      |rep.headlines| <= |rep.info|
      && (Render(rep).None? <==> forall i :: 0 <= i < |slots| ==> !Yields(slots[i]))
  {
    InfoCoversHeadlines(slots);
    EmptyGridIffNothingYields(slots);
  }

  /** End to end, from the table and the three groups: nothing is rendered
      exactly when no group has a qualifying record, and otherwise every
      row gets exactly the role its index list gives it. */
  lemma ReportRoles(t: Table, targets: seq<Target>)
    ensures var rep := Assemble(t, targets);
      && |rep.headlines| <= |rep.info|
      && (Render(rep).None? <==> forall i :: 0 <= i < |targets| ==> GroupRows(t, targets[i]).None?)
      && forall r :: 0 <= r < |rep.rows| ==>
           && (RoleOf(rep, r).TitleBand? <==> r in rep.headlines)
           && (RoleOf(rep, r).ColumnHeader? <==> r in rep.headers)
           && (RoleOf(rep, r).Separator? <==> r in rep.separators)
  {
    var slots := Slots(t, targets);
    SlotsHaveHeaders(t, targets);
    NothingRenderedIffNoBlock(slots);
    forall r | 0 <= r < |AssembleSlots(slots).rows|
      ensures var rep := AssembleSlots(slots);
        && (RoleOf(rep, r).TitleBand? <==> r in rep.headlines)
        && (RoleOf(rep, r).ColumnHeader? <==> r in rep.headers)
        && (RoleOf(rep, r).Separator? <==> r in rep.separators)
    {
      RolesOfAssembledGrid(slots, r);
    }
  }
}
