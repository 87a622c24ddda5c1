/**
 The index, anchor and selection logic shared, line for line, by
 `ScrollableSelectLayout` and `SlideSelectBarLayout`.

 Conventions (the code's own): the column shows one blank row, then the
 `n` real items, then one blank row, every row `h` pixels tall. The
 swipeable library works on "anchor values" `v` in `[-1, n-2]`; anchor
 value `v` sits at pixel offset `-(v+1)*h` and selects real item `v+1`.
 The captured `midItemIndexStart` is `mid`; the saveable state holds
 `currentSwipeItemIndex`, which the picker keeps equal to `mid+1`.
 */
module Picker {
  import opened KotlinInt
  import ColumnMeasure

  /** A wrapped item and its observable `selected` flag. */
  datatype Entry<E> = Entry(item: E, selected: bool)

  /** `ScrollableSelectState` / `SlideSelectBarState`: one saveable integer,
      `-1` meaning "not chosen yet, start in the middle". */
  datatype SelectState = SelectState(currentSwipeItemIndex: int)

  const Unset: int := -1

  /** Everything the picker keeps between events. */
  datatype Picker<E> = Picker(entries: seq<Entry<E>>, mid: int, state: SelectState)

  /** The result of building a picker: the Kotlin code indexes the entry list
      with `mid + 1` and throws when that index is out of bounds. */
  datatype Init<E> = Ready(picker: Picker<E>) | IndexOutOfBounds(index: int, size: int)

  /** The result of the swipeable's `confirmStateChange` callback. */
  datatype Confirmed<E> = Confirmed(picker: Picker<E>, accepted: bool)

  // ---------------------------------------------------------------------
  // Saver

  function Save(s: SelectState): int
  {
    s.currentSwipeItemIndex
  }

  function Restore(value: int): (s: SelectState)
    ensures Save(s) == value
  {
    SelectState(value)
  }

  /** The saver stores exactly one integer and loses nothing. */
  lemma SaverRoundTrip(s: SelectState, value: int)
    ensures Restore(Save(s)) == s
    ensures Save(Restore(value)) == value
  {
  }

  // ---------------------------------------------------------------------
  // Anchors

  /** The anchor values the swipeable may settle on. */
  predicate IsAnchorValue(n: int, v: int)
  {
    -1 <= v <= n - 2
  }

  /** The pixel offset at which anchor value `v` is at rest. */
  function AnchorKey(v: int, h: int): int
  {
    -(v + 1) * h
  }

  /** Anchor keys are strictly decreasing in the anchor value. */
  lemma AnchorKeyOrder(v: int, w: int, h: int)
    requires h > 0
    ensures v < w <==> AnchorKey(w, h) < AnchorKey(v, h)
    ensures AnchorKey(v, h) - AnchorKey(w, h) == (w - v) * h
  {
    calc {
      AnchorKey(v, h) - AnchorKey(w, h);
      (w + 1) * h - (v + 1) * h;
      { MulSubDistributes(w + 1, v + 1, h); }
      (w - v) * h;
    }
    if v < w {
      MulPositive(w - v, h);
    } else {
      MulPositive(v - w + 1, h);
      MulSubDistributes(v - w + 1, 1, h);
    }
  }

  lemma MulSubDistributes(a: int, b: int, h: int)
    ensures a * h - b * h == (a - b) * h
  {
  }

  lemma MulPositive(a: int, h: int)
    requires a > 0 && h > 0
    ensures a * h > 0
  {
  }

  /** The anchor map, built by the loop over `items.indices` in the order
      the loop inserts: real item `index` at key `-index*h` gets value
      `index - 1`. */
  function Anchors(n: nat, h: int): (m: map<int, int>)
    ensures forall k :: k in m ==> IsAnchorValue(n, m[k])
    ensures h > 0 ==> forall k :: k in m ==> k == AnchorKey(m[k], h)
    ensures h > 0 ==> forall v :: IsAnchorValue(n, v) ==> AnchorKey(v, h) in m && m[AnchorKey(v, h)] == v
    ensures h > 0 ==> |m| == n
  {
    if n == 0 then map[]
    else
      var m0 := Anchors(n - 1, h);
      var key := -(n - 1) * h;
      assert h > 0 ==> key !in m0 by {
        if h > 0 && key in m0 {
          AnchorKeyOrder(m0[key], n - 2, h);
        }
      }
      m0[key := n - 2]
  }

  /** The anchor values are exactly `[-1, n-2]`. */
  lemma AnchorValues(n: nat, h: int, v: int)
    requires h > 0
    ensures v in Anchors(n, h).Values <==> IsAnchorValue(n, v)
  {
    var m := Anchors(n, h);
    if IsAnchorValue(n, v) {
      assert m[AnchorKey(v, h)] == v;
    }
  }

  /** Neighbouring anchors are exactly one row apart: from the anchor of
      value `v`, one row further up (a smaller key) is value `v + 1` and one
      row down is value `v - 1`, while those values exist. */
  lemma AnchorsStepByRow(n: nat, h: int, v: int)
    requires h > 0 && IsAnchorValue(n, v)
    ensures var m := Anchors(n, h);
      AnchorKey(v, h) in m && m[AnchorKey(v, h)] == v
    ensures var m := Anchors(n, h);
      v < n - 2 ==> AnchorKey(v, h) - h in m && m[AnchorKey(v, h) - h] == v + 1
    ensures var m := Anchors(n, h);
      v > -1 ==> AnchorKey(v, h) + h in m && m[AnchorKey(v, h) + h] == v - 1
  {
    AnchorKeyOrder(v, v + 1, h);
    AnchorKeyOrder(v - 1, v, h);
  }

  // ---------------------------------------------------------------------
  // Entries and the selection invariant

  /** `items.map { ScrollableSelectColumnItem(it) }`: nothing selected yet. */
  function Fresh<E>(items: seq<E>): (es: seq<Entry<E>>)
    ensures |es| == |items|
  {
    seq(|items|, i requires 0 <= i < |items| => Entry(items[i], false))
  }

  function Items<E>(es: seq<Entry<E>>): (items: seq<E>)
    ensures |items| == |es|
  {
    seq(|es|, i requires 0 <= i < |es| => es[i].item)
  }

  /** Entry `k` is selected and no other entry is. */
  predicate OnlySelected<E>(es: seq<Entry<E>>, k: int)
  {
    0 <= k < |es| && forall i :: 0 <= i < |es| ==> (es[i].selected <==> i == k)
  }

  /** The picker invariant: a single selected entry, at `mid + 1`, and the
      stored index equal to `mid + 1`. */
  predicate Valid<E>(p: Picker<E>)
  {
    && OnlySelected(p.entries, p.mid + 1)
    && p.state.currentSwipeItemIndex == p.mid + 1
  }

  /** How many entries are selected. */
  function CountSelected<E>(es: seq<Entry<E>>): nat
  {
    if |es| == 0 then 0
    else CountSelected(es[..|es| - 1]) + (if es[|es| - 1].selected then 1 else 0)
  }

  lemma {:induction false} NoneSelected<E>(es: seq<Entry<E>>)
    ensures CountSelected(es) == 0 <==> forall i :: 0 <= i < |es| ==> !es[i].selected
  {
    if |es| > 0 {
      var init := es[..|es| - 1];
      NoneSelected(init);
      if CountSelected(es) == 0 {
        forall i | 0 <= i < |es|
          ensures !es[i].selected
        {
          if i < |es| - 1 {
            assert init[i] == es[i];
          }
        }
      }
      if forall i :: 0 <= i < |es| ==> !es[i].selected {
        forall i | 0 <= i < |init|
          ensures !init[i].selected
        {
          assert init[i] == es[i];
        }
      }
    }
  }

  /** "Exactly one flag is true" in its counting form and its positional
      form say the same thing. */
  lemma {:induction false} ExactlyOneSelected<E>(es: seq<Entry<E>>, k: int)
    requires 0 <= k < |es|
    ensures OnlySelected(es, k) <==> es[k].selected && CountSelected(es) == 1
  {
    var last := |es| - 1;
    var init := es[..last];
    assert forall i :: 0 <= i < last ==> init[i] == es[i];
    if k == last {
      NoneSelected(init);
    } else {
      ExactlyOneSelected(init, k);
      if es[k].selected {
        NoneSelected(init);
        assert init[k].selected;
      }
    }
  }

  // ---------------------------------------------------------------------
  // Initialisation

  /** The middle default, clamped: `((n-1)/2 - 1).coerceAtLeast(0).coerceAtMost(n-2)`. */
  function DefaultMid(n: int): (mid: int)
    ensures n >= 1 ==> IsAnchorValue(n, mid)
    ensures n >= 3 ==> mid + 1 == (n - 1) / 2
    ensures n == 2 ==> mid + 1 == 1
    ensures n == 1 ==> mid + 1 == 0
  {
    CoerceAtMost(CoerceAtLeast(Div(n - 1, 2) - 1, 0), n - 2)
  }

  /** The start value for `midItemIndexStart`. */
  function StartMid(stored: int, n: int): int
  {
    if stored != Unset then stored - 1 else DefaultMid(n)
  }

  /** The `remember` block that marks the start entry and writes the stored
      index back, run on freshly wrapped items. */
  function Initialize<E>(items: seq<E>, s: SelectState): (r: Init<E>)
    ensures r.Ready? <==>
      |items| >= 1 && (s.currentSwipeItemIndex == Unset || 0 <= s.currentSwipeItemIndex < |items|)
    ensures r.Ready? ==> Valid(r.picker) && Items(r.picker.entries) == items
    ensures r.Ready? && s.currentSwipeItemIndex != Unset ==> r.picker.state == s
    ensures r.Ready? && s.currentSwipeItemIndex == Unset ==> r.picker.mid == DefaultMid(|items|)
    ensures r.IndexOutOfBounds? ==> r.size == |items| && !(0 <= r.index < |items|)
  {
    var mid := StartMid(s.currentSwipeItemIndex, |items|);
    if 0 <= mid + 1 < |items| then
      var es := Fresh(items);
      var marked := es[mid + 1 := Entry(items[mid + 1], true)];
      assert Items(marked) == items;
      Ready(Picker(marked, mid, SelectState(mid + 1)))
    else
      IndexOutOfBounds(mid + 1, |items|)
  }

  /** The start value handed to the swipeable is a key-bearing anchor value,
      so the library starts at rest on an anchor. */
  lemma InitialValueIsAnchor<E>(items: seq<E>, s: SelectState, h: int)
    requires h > 0
    requires Initialize(items, s).Ready?
    ensures Initialize(items, s).picker.mid in Anchors(|items|, h).Values
  {
    AnchorValues(|items|, h, Initialize(items, s).picker.mid);
  }

  /** With nothing stored, the picker starts on the middle item
      `(n-1)/2` when there are at least three items, on the second of two,
      and on the only one of one. */
  lemma DefaultStartsInMiddle<E>(items: seq<E>)
    requires |items| >= 1
    ensures Initialize(items, SelectState(Unset)).Ready?
    ensures var p := Initialize(items, SelectState(Unset)).picker;
      && CountSelected(p.entries) == 1
      && p.state.currentSwipeItemIndex == p.mid + 1 >= 0
      && (|items| >= 3 ==> p.entries[(|items| - 1) / 2].selected)
      && (|items| <= 2 ==> p.entries[|items| - 1].selected)
  {
    var p := Initialize(items, SelectState(Unset)).picker;
    ExactlyOneSelected(p.entries, p.mid + 1);
  }

  // ---------------------------------------------------------------------
  // Settling

  /** `confirmStateChange`: the swipeable has settled on anchor value `it`. */
  function Confirm<E>(p: Picker<E>, it: int): (r: Confirmed<E>)
    requires 0 <= p.mid + 1 < |p.entries|
    requires IsAnchorValue(|p.entries|, it)
    ensures r.accepted
    ensures r.picker.mid == it && r.picker.state.currentSwipeItemIndex == it + 1
    ensures Items(r.picker.entries) == Items(p.entries)
    ensures r.picker.entries[it + 1].selected
    ensures it != p.mid ==> !r.picker.entries[p.mid + 1].selected
    ensures forall i :: 0 <= i < |p.entries| && i != it + 1 && i != p.mid + 1 ==>
      r.picker.entries[i] == p.entries[i]
  {
    var cleared := p.entries[p.mid + 1 := p.entries[p.mid + 1].(selected := false)];
    var marked := cleared[it + 1 := cleared[it + 1].(selected := true)];
    assert Items(marked) == Items(p.entries);
    Confirmed(Picker(marked, it, SelectState(it + 1)), true)
  }

  /** A settle keeps the invariant: the single flag moves to `it + 1`. */
  lemma ConfirmKeepsOneSelected<E>(p: Picker<E>, it: int)
    requires Valid(p)
    requires IsAnchorValue(|p.entries|, it)
    ensures Valid(Confirm(p, it).picker)
    ensures CountSelected(Confirm(p, it).picker.entries) == 1
    ensures OnlySelected(Confirm(p, it).picker.entries, it + 1)
  {
    var q := Confirm(p, it).picker;
    ExactlyOneSelected(q.entries, it + 1);
  }

  /** Settling on the value already current changes nothing. */
  lemma ConfirmCurrentIsIdentity<E>(p: Picker<E>)
    requires Valid(p)
    ensures Confirm(p, p.mid) == Confirmed(p, true)
  {
    var q := Confirm(p, p.mid).picker;
    assert q.entries == p.entries;
  }

  /** Settling twice on the same value is settling once. */
  lemma ConfirmIdempotent<E>(p: Picker<E>, it: int)
    requires 0 <= p.mid + 1 < |p.entries|
    requires IsAnchorValue(|p.entries|, it)
    ensures Confirm(Confirm(p, it).picker, it) == Confirm(p, it)
  {
    var q := Confirm(p, it).picker;
    assert Confirm(q, it).picker.entries == q.entries;
  }

  /** Any run of settles the library may report, applied in order. */
  function SettleAll<E>(p: Picker<E>, values: seq<int>): (q: Picker<E>)
    requires Valid(p)
    requires forall i :: 0 <= i < |values| ==> IsAnchorValue(|p.entries|, values[i])
    ensures Valid(q) && CountSelected(q.entries) == 1
    ensures Items(q.entries) == Items(p.entries)
    ensures |values| > 0 ==> q.mid == values[|values| - 1]
    ensures |values| == 0 ==> q == p
    decreases |values|
  {
    if |values| == 0 then
      ExactlyOneSelected(p.entries, p.mid + 1);
      p
    else
      ConfirmKeepsOneSelected(p, values[0]);
      SettleAll(Confirm(p, values[0]).picker, values[1..])
  }

  /** Saving the index and rebuilding the picker from it on the same items
      reproduces the picker exactly. */
  lemma PersistRoundTrip<E>(p: Picker<E>)
    requires Valid(p)
    ensures Initialize(Items(p.entries), Restore(Save(p.state))) == Ready(p)
  {
    var items := Items(p.entries);
    var r := Initialize(items, Restore(Save(p.state)));
    assert p.state.currentSwipeItemIndex != Unset;
    assert r.picker.entries == p.entries;
  }

  // ---------------------------------------------------------------------
  // Vertical placement

  /** `selectBoxOffset.toInt()`: half a row when an even number of rows is
      visible, so the selection band has a middle to sit in. */
  function EvenCorrection(h: int, visible: int): (c: int)
    ensures h >= 0 ==> 0 <= c <= h
    ensures !IsEven(visible) ==> c == 0
    ensures IsEven(visible) && h >= 0 ==> c == h / 2 && c + c <= h <= c + c + 1
  {
    if IsEven(visible) then Div(h, 2) else 0
  }

  /** The y at which the measured column is placed inside the picker box:
      `height / 2 - (h * 1.5).toInt() - selectBoxOffset.toInt()`. */
  function ColumnShift(stackHeight: int, h: int, visible: int): (y: int)
    ensures stackHeight >= 0 && h >= 0 ==>
      y == stackHeight / 2 - (3 * h) / 2 - (if IsEven(visible) then h / 2 else 0)
    ensures stackHeight >= 0 && h >= 0 && !IsEven(visible) ==> y + h + h / 2 == stackHeight / 2
  {
    Div(stackHeight, 2) - Div(3 * h, 2) - EvenCorrection(h, visible)
  }

  /** The row heights of the picker column: blank, the `n` items, blank. */
  function StackRows(n: nat, h: nat): seq<nat>
  {
    ColumnMeasure.Uniform(n + 2, h)
  }

  /** At rest on anchor value `mid`, the row of entry `mid + 1` (row
      `mid + 2` of the column) is centred on the column's midpoint, raised
      by the even-count correction. */
  lemma SettledRowCentred(n: nat, h: nat, visible: int, mid: int)
    requires IsAnchorValue(n, mid)
    ensures var rows := StackRows(n, h);
      var stack := ColumnMeasure.Sum(rows);
      var top := ColumnShift(stack, h, visible) + ColumnMeasure.Offsets(rows)[mid + 2] + AnchorKey(mid, h);
      && stack == (n + 2) * h
      && top + h / 2 + EvenCorrection(h, visible) == stack / 2
      && (IsEven(visible) ==> top + h / 2 + h / 2 == stack / 2)
      && (!IsEven(visible) ==> top + h / 2 == stack / 2)
  {
    ColumnMeasure.UniformColumn(n + 2, h);
    var rows := StackRows(n, h);
    assert ColumnMeasure.Offsets(rows)[mid + 2] == (mid + 2) * h;
    assert (mid + 2) * h + AnchorKey(mid, h) == h;
    assert Div(3 * h, 2) == h + h / 2;
  }
}
