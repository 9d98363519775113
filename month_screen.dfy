/**
 * The month drill-down editor of one timeline square: the user toggles
 * month indices 0..11 into a selection, opens an editor for them, and
 * either cancels (the draft and the selection are reset) or saves (a copy
 * of the square's twelve months is returned with every selected month
 * overwritten by the draft label, color and activities).
 */
module MonthScreen {
  import opened Activities

  /** The editor offers the months 0..11 of a year. */
  const MonthCount := 12

  /** One month of a square as the editor writes it: `{label, color,
      activities}`. The `label` key is stored in `labelText`, because
      `label` is a reserved word in Dafny. */
  datatype MonthSlot = MonthSlot(labelText: Text, color: Text, activities: seq<Text>)

  /** A color choice offered by the parent screen; `value` is the color token. */
  datatype Swatch = Swatch(name: Text, value: Text)

  predicate IsMonthIndex(m: int) {
    0 <= m < MonthCount
  }

  predicate NoDuplicates(s: seq<int>) {
    forall i, j :: 0 <= i < j < |s| ==> s[i] != s[j]
  }

  /** A selection the editor can reach: distinct month indices. */
  predicate ValidSelection(s: seq<int>) {
    NoDuplicates(s) && forall i :: 0 <= i < |s| ==> IsMonthIndex(s[i])
  }

  // ---------------------------------------------------------------------
  // Selection toggling

  /** `s.filter(x => x !== m)`: every occurrence of `m` removed, the order
      of the others kept. */
  function Without(s: seq<int>, m: int): (r: seq<int>)
    ensures forall x :: x in r <==> x in s && x != m
    ensures |r| <= |s| && (m in s ==> |r| < |s|)
    ensures NoDuplicates(s) ==> NoDuplicates(r)
  {
    if s == [] then []
    else
      var rest := Without(s[1..], m);
      assert NoDuplicates(s) ==> NoDuplicates(s[1..]) && s[0] !in s[1..];
      if s[0] == m then rest
      else
        assert NoDuplicates(s) ==> NoDuplicates([s[0]] + rest) by {
          if NoDuplicates(s) {
            forall i, j | 0 <= i < j < |[s[0]] + rest| ensures ([s[0]] + rest)[i] != ([s[0]] + rest)[j] {
              if i == 0 { assert ([s[0]] + rest)[j] in rest; }
            }
          }
        }
        [s[0]] + rest
  }

  /** Removing an absent index changes nothing. */
  lemma {:induction false} WithoutAbsent(s: seq<int>, m: int)
    requires m !in s
    ensures Without(s, m) == s
  {
    if s != [] {
      WithoutAbsent(s[1..], m);
      assert s == [s[0]] + s[1..];
    }
  }

  /** Removing an index from a sequence that ends with it. */
  lemma {:induction false} WithoutAppended(s: seq<int>, m: int)
    ensures Without(s + [m], m) == Without(s, m)
  {
    if s == [] {
      assert [m][1..] == [];
    } else {
      WithoutAppended(s[1..], m);
      assert (s + [m])[1..] == s[1..] + [m];
    }
  }

  /** In a duplicate-free selection, removing the month at position `i`
      cuts out exactly that position: the others keep their order. */
  lemma {:induction false} WithoutAt(s: seq<int>, i: nat)
    requires NoDuplicates(s) && i < |s|
    ensures Without(s, s[i]) == s[..i] + s[i + 1..]
  {
    if i == 0 {
      WithoutAbsent(s[1..], s[0]);
    } else {
      assert NoDuplicates(s[1..]);
      WithoutAt(s[1..], i - 1);
      assert s[1..][i - 1] == s[i];
      assert s[1..][..i - 1] == s[1..i];
      assert s[1..][i..] == s[i + 1..];
      assert s[..i] == [s[0]] + s[1..i];
    }
  }

  /** toggleSelectMonth: an index that is selected is removed (every copy of
      it), one that is not is appended at the end. Membership of exactly
      `m` flips; the selection stays valid. */
  function Toggled(selected: seq<int>, m: int): (r: seq<int>)
    ensures forall x :: x in r <==> (x in selected <==> x != m)
    ensures m !in selected ==> r == selected + [m]
    ensures m in selected ==> |r| < |selected|
    ensures ValidSelection(selected) && IsMonthIndex(m) ==> ValidSelection(r)
  {
    if m in selected then
      var r := Without(selected, m);
      assert forall i :: 0 <= i < |r| ==> r[i] in selected;
      r
    else
      assert forall i :: 0 <= i < |selected| ==> selected[i] != m;
      selected + [m]
  }

  /** Toggling twice restores membership; an index that was absent leaves
      the selection exactly as it was, one that was present moves to the end. */
  lemma ToggleTwice(selected: seq<int>, m: int)
    ensures forall x :: x in Toggled(Toggled(selected, m), m) <==> x in selected
    ensures m !in selected ==> Toggled(Toggled(selected, m), m) == selected
    ensures m in selected ==> Toggled(Toggled(selected, m), m) == Without(selected, m) + [m]
  {
    if m !in selected {
      WithoutAppended(selected, m);
      WithoutAbsent(selected, m);
    }
  }

  // ---------------------------------------------------------------------
  // Commit merge

  /** Every selected index addresses a month of `months`. */
  predicate Addresses(selected: seq<int>, months: seq<MonthSlot>) {
    forall i :: 0 <= i < |selected| ==> 0 <= selected[i] < |months|
  }

  /** The months after `selected.forEach(m => months[m] = slot)`, writing in
      selection order. The result has the same length as `months`, holds
      `slot` at every selected index and the original month everywhere else. */
  function Merged(months: seq<MonthSlot>, selected: seq<int>, slot: MonthSlot): (r: seq<MonthSlot>)
    requires Addresses(selected, months)
    ensures |r| == |months|
    ensures forall i :: 0 <= i < |r| ==> r[i] == if i in selected then slot else months[i]
  {
    if selected == [] then months
    else
      var last := |selected| - 1;
      var before := selected[..last];
      assert forall x :: x in selected <==> x in before || x == selected[last] by {
        assert selected == before + [selected[last]];
      }
      Merged(months, before, slot)[selected[last] := slot]
  }

  /** The order of the selection and repeated indices in it do not matter. */
  lemma MergedBySet(months: seq<MonthSlot>, s1: seq<int>, s2: seq<int>, slot: MonthSlot)
    requires Addresses(s1, months) && Addresses(s2, months)
    requires forall x :: x in s1 <==> x in s2
    ensures Merged(months, s1, slot) == Merged(months, s2, slot)
  {
  }

  /** Saving the same draft over the same selection twice changes nothing more. */
  lemma MergedIdempotent(months: seq<MonthSlot>, selected: seq<int>, slot: MonthSlot)
    requires Addresses(selected, months)
    ensures Merged(Merged(months, selected, slot), selected, slot) == Merged(months, selected, slot)
  {
  }

  /** With nothing selected the months come back unchanged. */
  lemma MergedNothing(months: seq<MonthSlot>, slot: MonthSlot)
    ensures Merged(months, [], slot) == months
  {
  }

  // ---------------------------------------------------------------------
  // The editor's state

  class MonthEditor {
    /** The parent's palette; the first swatch is the default color. */
    const colorSwatches: seq<Swatch>
    var selectedMonths: seq<int>
    var modalOpen: bool
    var labelText: Text
    var labelColor: Text
    var activitiesText: Text

    ghost predicate Valid()
      reads this
    {
      |colorSwatches| > 0 && ValidSelection(selectedMonths)
    }

    /** The state cells' initial values. */
    constructor (colorSwatches: seq<Swatch>)
      requires |colorSwatches| > 0
      ensures Valid() && this.colorSwatches == colorSwatches
      ensures selectedMonths == [] && !modalOpen
      ensures labelText == [] && labelColor == colorSwatches[0].value && activitiesText == []
    {
      this.colorSwatches := colorSwatches;
      selectedMonths := [];
      modalOpen := false;
      labelText := [];
      labelColor := colorSwatches[0].value;
      activitiesText := [];
    }

    /** A click on month `m`. */
    method ToggleSelectMonth(m: int)
      requires Valid() && IsMonthIndex(m)
      modifies this`selectedMonths
      ensures Valid()
      ensures selectedMonths == Toggled(old(selectedMonths), m)
    {
      selectedMonths := Toggled(selectedMonths, m);
    }

    /** "Add Label": opens the editor only when something is selected. */
    method OpenModal()
      requires Valid()
      modifies this`modalOpen
      ensures Valid()
      ensures old(selectedMonths) != [] ==> modalOpen
      ensures old(selectedMonths) == [] ==> modalOpen == old(modalOpen)
    {
      if |selectedMonths| > 0 {
        modalOpen := true;
      }
    }

    /** Cancel or close: the draft and the selection are reset, the editor closes. */
    method CloseModal()
      requires Valid()
      modifies this`labelText, this`labelColor, this`activitiesText, this`selectedMonths, this`modalOpen
      ensures Valid()
      ensures labelText == [] && labelColor == colorSwatches[0].value && activitiesText == []
      ensures selectedMonths == [] && !modalOpen
    {
      labelText := [];
      labelColor := colorSwatches[0].value;
      activitiesText := [];
      selectedMonths := [];
      modalOpen := false;
    }

    /** Typing in the label field. */
    method SetLabelText(text: Text)
      modifies this`labelText
      ensures labelText == text
    {
      labelText := text;
    }

    /** Typing in the activities field. */
    method SetActivitiesText(text: Text)
      modifies this`activitiesText
      ensures activitiesText == text
    {
      activitiesText := text;
    }

    /** Clicking the swatch at position `i` of the palette. */
    method PickColor(i: nat)
      requires i < |colorSwatches|
      modifies this`labelColor
      ensures labelColor == colorSwatches[i].value
    {
      labelColor := colorSwatches[i].value;
    }

    /** The month record the editor writes on save. */
    function Draft(): MonthSlot
      reads this
    {
      MonthSlot(labelText, labelColor, ParseActivities(activitiesText))
    }

    /** "Save": a fresh copy of the square's months with the draft written at
        every selected index. The input array and the editor's state are left
        as they were (no `modifies` clause): the selection is not cleared and
        the editor is not closed here. */
    method SaveLabel(months: array<MonthSlot>) returns (updated: array<MonthSlot>)
      requires Valid() && months.Length == MonthCount
      ensures fresh(updated)
      ensures updated.Length == months.Length
      ensures updated[..] == Merged(months[..], selectedMonths, Draft())
    {
      updated := new MonthSlot[months.Length];
      forall i | 0 <= i < months.Length {
        updated[i] := months[i];
      }
      var k := 0;
      while k < |selectedMonths|
        invariant 0 <= k <= |selectedMonths|
        invariant updated[..] == Merged(months[..], selectedMonths[..k], Draft())
      {
        var m := selectedMonths[k];
        updated[m] := MonthSlot(labelText, labelColor, ParseActivities(activitiesText));
        assert selectedMonths[..k + 1][..k] == selectedMonths[..k];
        k := k + 1;
      }
      assert selectedMonths[..k] == selectedMonths;
    }
  }

  /** A click-through of the selection: "Add Label" with nothing selected
      does nothing; two months stay selected after a third is toggled twice;
      cancelling resets everything. */
  method SelectionScenario(swatches: seq<Swatch>)
    requires |swatches| > 0
  {
    var editor := new MonthEditor(swatches);
    editor.OpenModal();
    assert !editor.modalOpen;
    editor.ToggleSelectMonth(2);
    editor.ToggleSelectMonth(0);
    editor.ToggleSelectMonth(5);
    editor.ToggleSelectMonth(5);
    assert editor.selectedMonths == [2, 0];
    editor.OpenModal();
    assert editor.modalOpen;
    editor.SetLabelText("Move");
    editor.CloseModal();
    assert editor.selectedMonths == [] && !editor.modalOpen && editor.labelText == [];
  }

  /** A click-through of a save over twelve empty months with March and
      January selected: both get the draft, February stays empty, and the
      editor is still open with the same selection. */
  method SaveScenario(swatches: seq<Swatch>, months: array<MonthSlot>, notes: Text)
    requires |swatches| > 0 && months.Length == MonthCount
    requires forall i :: 0 <= i < months.Length ==> months[i] == MonthSlot([], [], [])
  {
    var editor := new MonthEditor(swatches);
    editor.ToggleSelectMonth(2);
    editor.ToggleSelectMonth(0);
    editor.OpenModal();
    editor.SetLabelText("Move");
    editor.SetActivitiesText(notes);
    var updated := editor.SaveLabel(months);
    assert updated[2] == updated[0] == MonthSlot("Move", swatches[0].value, ParseActivities(notes));
    assert updated[1] == MonthSlot([], [], []);
    assert editor.selectedMonths == [2, 0] && editor.modalOpen;
  }
}
