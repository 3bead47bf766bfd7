/** The terminal interface's cursors: the selected tab and the selected row
    of a table, each moved forward and back with wrap-around. */
module Cursors {
  import opened Common

  /** The tab after `index` among `count` tabs, wrapping to the first.
      Rust's `%` by zero panics, hence the precondition. */
  function NextIndex(index: nat, count: nat): (r: nat)
    requires count > 0
    ensures r < count
  {
    (index + 1) % count
  }

  /** The tab before `index`, wrapping from the first to the last. With no
      tabs and index 0 the subtraction underflows, hence the precondition. */
  function PreviousIndex(index: nat, count: nat): (r: nat)
    requires index > 0 || count > 0
    ensures index > 0 ==> r < index
    ensures index == 0 ==> r + 1 == count
  {
    if index > 0 then index - 1 else count - 1
  }

  /** Away from the last tab, "next" moves one tab on; from the last it
      wraps to the first. */
  lemma NextIndexInside(index: nat, count: nat)
    requires index + 1 <= count
    ensures NextIndex(index, count) == if index + 1 < count then index + 1 else 0
  {
  }

  /** For an index in range, stepping back undoes stepping forward, and
      stepping forward undoes stepping back. */
  lemma StepsUndoEachOther(index: nat, count: nat)
    requires index < count
    ensures PreviousIndex(NextIndex(index, count), count) == index
    ensures NextIndex(PreviousIndex(index, count), count) == index
    ensures PreviousIndex(index, count) < count
  {
    if index + 1 < count {
      assert NextIndex(index, count) == index + 1;
    } else {
      assert NextIndex(index, count) == 0;
    }
    if index == 0 {
      assert NextIndex(count - 1, count) == 0;
    } else {
      assert NextIndex(index - 1, count) == index;
    }
  }

  /** `k` presses of "next" from `index`. */
  function NextTimes(index: nat, count: nat, k: nat): nat
    requires count > 0
  {
    if k == 0 then index else NextIndex(NextTimes(index, count, k - 1), count)
  }

  /** Pressing "next" `a` times and then `b` times is pressing it `a + b`
      times. */
  lemma {:induction false} NextTimesCompose(index: nat, count: nat, a: nat, b: nat)
    requires count > 0
    ensures NextTimes(index, count, a + b) == NextTimes(NextTimes(index, count, a), count, b)
  {
    if b > 0 {
      NextTimesCompose(index, count, a, b - 1);
    }
  }

  /** Before the last tab is passed, `k` presses move `k` tabs on. */
  lemma {:induction false} NextTimesAdvances(index: nat, count: nat, k: nat)
    requires index + k < count
    ensures NextTimes(index, count, k) == index + k
  {
    if k > 0 {
      NextTimesAdvances(index, count, k - 1);
      NextIndexInside(index + k - 1, count);
    }
  }

  /** Pressing "next" once per tab comes back to the starting tab. */
  lemma NextRoundTrip(index: nat, count: nat)
    requires index < count
    ensures NextTimes(index, count, count) == index
  {
    var toLast := count - 1 - index;
    NextTimesAdvances(index, count, toLast);
    assert NextTimes(index, count, toLast + 1) == 0 by {
      assert NextIndex(count - 1, count) == 0;
    }
    NextTimesAdvances(0, count, index);
    NextTimesCompose(index, count, toLast + 1, index);
  }

  /** The row `StatefulTable::next` selects: the first row when nothing is
      selected or the last row is, otherwise the one below. With no rows and a
      selection, `len() - 1` underflows. */
  function NextRow(selected: Option<nat>, rows: nat): (r: nat)
    requires selected.None? || rows > 0
    ensures rows > 0 ==> r < rows
    ensures selected.None? ==> r == 0
  {
    match selected
    case Some(i) => if i >= rows - 1 then 0 else i + 1
    case None => 0
  }

  /** The row `StatefulTable::previous` selects: the first row when nothing is
      selected, the last row from the first, otherwise the one above. */
  function PreviousRow(selected: Option<nat>, rows: nat): (r: nat)
    requires selected != Some(0) || rows > 0
    ensures selected.None? ==> r == 0
    ensures selected.Some? && selected.value > 0 ==> r < selected.value
  {
    match selected
    case Some(i) => if i == 0 then rows - 1 else i - 1
    case None => 0
  }

  /** From a selected row in range, the table's cursor moves exactly as the
      tab cursor does, so it wraps the same way and stays in range. */
  lemma RowsMoveLikeTabs(i: nat, rows: nat)
    requires i < rows
    ensures NextRow(Some(i), rows) == NextIndex(i, rows)
    ensures PreviousRow(Some(i), rows) == PreviousIndex(i, rows)
    ensures PreviousRow(Some(i), rows) < rows
  {
    if i + 1 < rows {
      assert NextIndex(i, rows) == i + 1;
    } else {
      assert NextIndex(i, rows) == 0;
    }
  }

  /** `TabsState`: a list of tab titles and the selected one. */
  class TabsState {
    var titles: seq<string>
    var index: nat

    /** `TabsState::new` starts on the first tab. */
    constructor (titles: seq<string>)
      ensures this.titles == titles && index == 0
    {
      this.titles := titles;
      index := 0;
    }

    /** Select the next tab, wrapping to the first. */
    method Next()
      requires |titles| > 0
      modifies this
      ensures titles == old(titles)
      ensures index == NextIndex(old(index), |titles|)
    {
      index := (index + 1) % |titles|;
    }

    /** Select the previous tab, wrapping to the last. */
    method Previous()
      requires index > 0 || |titles| > 0
      modifies this
      ensures titles == old(titles)
      ensures index == PreviousIndex(old(index), |titles|)
    {
      if index > 0 {
        index := index - 1;
      } else {
        index := |titles| - 1;
      }
    }
  }

  /** The rows `StatefulTable::new` fills the demonstration table with. */
  const DemoRows: seq<seq<string>> := [
    ["Row11", "Row12", "Row13"],
    ["Row21", "Row22", "Row23"],
    ["Row31", "Row32", "Row33"],
    ["Row41", "Row42", "Row43"],
    ["Row51", "Row52", "Row53"],
    ["Row61", "Row62Test", "Row63"],
    ["Row71", "Row72", "Row73"],
    ["Row81", "Row82", "Row83"],
    ["Row91", "Row92", "Row93"],
    ["Row101", "Row102", "Row103"],
    ["Row111", "Row112", "Row113"],
    ["Row121", "Row122", "Row123"],
    ["Row131", "Row132", "Row133"],
    ["Row141", "Row142", "Row143"],
    ["Row151", "Row152", "Row153"],
    ["Row161", "Row162", "Row163"],
    ["Row171", "Row172", "Row173"],
    ["Row181", "Row182", "Row183"],
    ["Row191", "Row192", "Row193"]
  ]

  /** `StatefulTable`: table rows and the selected row, if any. */
  class StatefulTable {
    var selected: Option<nat>
    var items: seq<seq<string>>

    /** `StatefulTable::new`: the demonstration rows, nothing selected. */
    constructor ()
      ensures items == DemoRows && |items| == 19 && selected.None?
    {
      items := DemoRows;
      selected := None;
    }

    /** Select the next row, wrapping to the first. */
    method Next()
      requires selected.None? || |items| > 0
      modifies this
      ensures items == old(items)
      ensures selected == Some(NextRow(old(selected), |items|))
    {
      var i: nat;
      match selected {
        case Some(current) =>
          if current >= |items| - 1 {
            i := 0;
          } else {
            i := current + 1;
          }
        case None =>
          i := 0;
      }
      selected := Some(i);
    }

    /** Select the previous row, wrapping to the last. */
    method Previous()
      requires selected != Some(0) || |items| > 0
      modifies this
      ensures items == old(items)
      ensures selected == Some(PreviousRow(old(selected), |items|))
    {
      var i: nat;
      match selected {
        case Some(current) =>
          if current == 0 {
            i := |items| - 1;
          } else {
            i := current - 1;
          }
        case None =>
          i := 0;
      }
      selected := Some(i);
    }
  }
}
