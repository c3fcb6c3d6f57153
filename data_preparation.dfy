/** python/data_preparation.py: tertile discretisation of the numeric
    columns (`discretiser_acm`) and the listing of strongly correlated
    pairs printed by `main`. */
module DataPreparation {
  import opened Wrappers
  import opened Numerics

  // ---------------------------------------------------------------------
  //  Labels and the per-value rule
  // ---------------------------------------------------------------------

  /** The three categories, in increasing order. */
  datatype Label = Faible | Moyen | Eleve
  {
    function Rank(): nat
    {
      match this
      case Faible => 0
      case Moyen => 1
      case Eleve => 2
    }

    /** The text written to the output table. */
    function Text(): string
    {
      match this
      case Faible => "Faible"
      case Moyen => "Moyen"
      case Eleve => "Élevé"
    }
  }

  /** The three conditions of the rule, in the order they are tried. */
  function Conditions(x: real, q33: real, q67: real): (c: seq<bool>)
    ensures |c| == |Choices|
  {
    [x <= q33, q33 < x && x <= q67, x > q67]
  }

  const Choices: seq<Label> := [Faible, Moyen, Eleve]

  /** The label texts, in the order they are given to `np.select`. */
  const LabelTexts: seq<string> := ["Faible", "Moyen", "Élevé"]

  /** Each choice is written as the text at its own position, and no two
      labels are written alike, so the written column determines the
      labels. */
  lemma ChoicesWrittenAsLabelTexts()
    ensures |Choices| == |LabelTexts|
    ensures forall i :: 0 <= i < |Choices| ==> Choices[i].Text() == LabelTexts[i]
    ensures forall a: Label, b: Label :: a.Text() == b.Text() ==> a == b
  {
  }

  /** `np.select`: the choice of the first condition that holds, else the default. */
  function Select(conds: seq<bool>, choices: seq<Label>, default: Label): (l: Label)
    requires |conds| == |choices|
    ensures forall i :: 0 <= i < |conds| && conds[i] && NoneBefore(conds, i) ==> l == choices[i]
    ensures NoneBefore(conds, |conds|) ==> l == default
  {
    if |conds| == 0 then default
    else if conds[0] then choices[0]
    else Select(conds[1..], choices[1..], default)
  }

  /** None of the first n conditions holds. */
  predicate NoneBefore(conds: seq<bool>, n: nat)
    requires n <= |conds|
  {
    forall j :: 0 <= j < n ==> !conds[j]
  }

  /** The label of one value against the column's two thresholds. */
  function Classify(x: real, q33: real, q67: real): (l: Label)
    ensures l == Faible <==> x <= q33
    ensures l == Moyen <==> q33 < x <= q67
    ensures l == Eleve <==> q33 < x && q67 < x
  {
    SelectOfThree(x <= q33, q33 < x && x <= q67, x > q67, Faible, Moyen, Eleve, Moyen);
    Select(Conditions(x, q33, q67), Choices, Moyen)
  }

  lemma SelectOfThree(c0: bool, c1: bool, c2: bool, a: Label, b: Label, c: Label, default: Label)
    ensures Select([c0, c1, c2], [a, b, c], default)
            == if c0 then a else if c1 then b else if c2 then c else default
  {
    var conds := [c0, c1, c2];
    assert NoneBefore(conds, 0);
    if !c0 {
      assert NoneBefore(conds, 1);
      if !c1 {
        assert NoneBefore(conds, 2);
        if !c2 {
          assert NoneBefore(conds, 3);
        }
      }
    }
  }

  /** How many of the booleans hold. */
  function CountTrue(bs: seq<bool>): nat
  {
    if |bs| == 0 then 0 else (if bs[0] then 1 else 0) + CountTrue(bs[1..])
  }

  /** With ordered thresholds every value meets exactly one condition. */
  lemma ExactlyOneCondition(x: real, q33: real, q67: real)
    requires q33 <= q67
    ensures CountTrue(Conditions(x, q33, q67)) == 1
  {
    CountTrueOfThree(x <= q33, q33 < x && x <= q67, x > q67);
  }

  lemma CountTrueOfThree(c0: bool, c1: bool, c2: bool)
    ensures CountTrue([c0, c1, c2]) == (if c0 then 1 else 0) + (if c1 then 1 else 0) + (if c2 then 1 else 0)
  {
    assert [c0, c1, c2][1..] == [c1, c2];
    assert [c1, c2][1..] == [c2];
    assert [c2][1..] == [];
    assert CountTrue([c2]) == (if c2 then 1 else 0) + CountTrue([]);
    assert CountTrue([c1, c2]) == (if c1 then 1 else 0) + CountTrue([c2]);
  }

  /** Some condition always holds, so the default `Moyen` is never the
      reason a value is labelled, whatever the thresholds. */
  lemma DefaultNeverTaken(x: real, q33: real, q67: real)
    ensures exists i :: 0 <= i < 3 && Conditions(x, q33, q67)[i]
  {
    if x <= q33 {
      assert Conditions(x, q33, q67)[0];
    } else if x <= q67 {
      assert Conditions(x, q33, q67)[1];
    } else {
      assert Conditions(x, q33, q67)[2];
    }
  }

  /** The thresholds themselves fall in the lower category: q33 is always
      Faible; q67 is Moyen when the thresholds differ, and Faible when they
      coincide. */
  lemma BoundariesLowerInclusive(q33: real, q67: real)
    ensures Classify(q33, q33, q67) == Faible
    ensures q33 < q67 ==> Classify(q67, q33, q67) == Moyen
    ensures q33 == q67 ==> Classify(q67, q33, q67) == Faible
  {
  }

  /** A larger value never gets a lower category. */
  lemma ClassifyMonotone(x: real, y: real, q33: real, q67: real)
    requires x <= y
    ensures Classify(x, q33, q67).Rank() <= Classify(y, q33, q67).Rank()
  {
  }

  // ---------------------------------------------------------------------
  //  Tertile thresholds: pandas' default linear-interpolation quantile
  // ---------------------------------------------------------------------

  const P33: real := 0.3333
  const P67: real := 0.6667

  predicate SortedAsc(s: seq<real>)
  {
    forall i, j :: 0 <= i < j < |s| ==> s[i] <= s[j]
  }

  function Insert(x: real, s: seq<real>): (r: seq<real>)
    ensures multiset(r) == multiset(s) + multiset{x}
  {
    if |s| == 0 then [x]
    else if x <= s[0] then [x] + s
    else
      assert s == [s[0]] + s[1..];
      [s[0]] + Insert(x, s[1..])
  }

  lemma {:induction false} InsertSorted(x: real, s: seq<real>)
    requires SortedAsc(s)
    ensures SortedAsc(Insert(x, s))
  {
    if |s| > 0 && x > s[0] {
      InsertSorted(x, s[1..]);
      var tail := Insert(x, s[1..]);
      forall k | 0 <= k < |tail| ensures s[0] <= tail[k] {
        assert tail[k] in multiset(tail);
        if tail[k] != x {
          assert tail[k] in multiset(s[1..]);
          var m :| 0 <= m < |s[1..]| && s[1..][m] == tail[k];
          assert s[m + 1] == tail[k];
        }
      }
    }
  }

  /** The column in ascending order (insertion sort). */
  function SortAscending(s: seq<real>): (r: seq<real>)
    ensures SortedAsc(r)
    ensures multiset(r) == multiset(s)
  {
    if |s| == 0 then []
    else
      assert s == [s[0]] + s[1..];
      InsertSorted(s[0], SortAscending(s[1..]));
      Insert(s[0], SortAscending(s[1..]))
  }

  /** A column already in order is left as it is. */
  lemma {:induction false} SortAscendingSorted(s: seq<real>)
    requires SortedAsc(s)
    ensures SortAscending(s) == s
  {
    if |s| > 0 {
      SortedAscTail(s);
      SortAscendingSorted(s[1..]);
      InsertAtFront(s[0], s[1..]);
      assert s == [s[0]] + s[1..];
    }
  }

  /** The rest of a sorted column is sorted, and not below its first value. */
  lemma SortedAscTail(s: seq<real>)
    requires |s| > 0 && SortedAsc(s)
    ensures SortedAsc(s[1..]) && (|s| > 1 ==> s[0] <= s[1..][0])
  {
    var tail := s[1..];
    forall i, j | 0 <= i < j < |tail|
      ensures tail[i] <= tail[j]
    {
      assert tail[i] == s[i + 1] && tail[j] == s[j + 1];
    }
  }

  /** A value no larger than the first of a column goes in front. */
  lemma InsertAtFront(x: real, s: seq<real>)
    requires |s| == 0 || x <= s[0]
    ensures Insert(x, s) == [x] + s
  {
  }

  /** The rank just above `lo`, kept inside a column of n values. */
  function Upper(n: nat, lo: int): int
  {
    if lo + 1 < n then lo + 1 else n - 1
  }

  /** The value at fractional rank `pos` of a sorted column, interpolated
      linearly between the two ranks around it. */
  function Interpolate(v: seq<real>, pos: real): (q: real)
    requires |v| > 0 && SortedAsc(v) && 0.0 <= pos <= (|v| - 1) as real
    ensures 0 <= pos.Floor <= Upper(|v|, pos.Floor) < |v|
    ensures v[pos.Floor] <= q <= v[Upper(|v|, pos.Floor)]
  {
    var lo := pos.Floor;
    var hi := Upper(|v|, lo);
    LerpBetween(v[lo], v[hi], pos - lo as real);
    Lerp(v[lo], v[hi], pos - lo as real)
  }

  /** The point a fraction t of the way from a to b. */
  function Lerp(a: real, b: real, t: real): real
  {
    a + (b - a) * t
  }

  /** Position of the quantile of order p among n sorted values. */
  function Position(n: nat, p: real): real
  {
    (n - 1) as real * p
  }

  lemma MulLeft(a: real, b: real, c: real)
    requires a >= 0.0 && b <= c
    ensures a * b <= a * c
  {
    assert a * (c - b) >= 0.0;
    assert a * (c - b) == a * c - a * b;
  }

  lemma PositionBounds(n: nat, p: real)
    requires n > 0 && 0.0 <= p <= 1.0
    ensures 0.0 <= Position(n, p) <= (n - 1) as real
  {
    MulLeft((n - 1) as real, 0.0, p);
    MulLeft((n - 1) as real, p, 1.0);
  }

  lemma PositionMonotone(n: nat, p1: real, p2: real)
    requires n > 0 && p1 <= p2
    ensures Position(n, p1) <= Position(n, p2)
  {
    MulLeft((n - 1) as real, p1, p2);
  }

  lemma LerpBetween(a: real, b: real, t: real)
    requires a <= b && 0.0 <= t < 1.0
    ensures a <= Lerp(a, b, t) <= b
  {
    MulLeft(b - a, 0.0, t);
    MulLeft(b - a, t, 1.0);
  }

  lemma LerpMonotone(a: real, b: real, t1: real, t2: real)
    requires a <= b && t1 <= t2
    ensures Lerp(a, b, t1) <= Lerp(a, b, t2)
  {
    MulLeft(b - a, t1, t2);
  }

  /** The quantile of order p of a sorted non-empty column (pandas'
      default, linear interpolation). */
  function QuantileSorted(v: seq<real>, p: real): (q: real)
    requires |v| > 0 && SortedAsc(v) && 0.0 <= p <= 1.0
    ensures v[0] <= q <= v[|v| - 1]
  {
    PositionBounds(|v|, p);
    Interpolate(v, Position(|v|, p))
  }

  /** Interpolating further along a sorted column never goes down. */
  lemma InterpolateMonotone(v: seq<real>, pos1: real, pos2: real)
    requires |v| > 0 && SortedAsc(v) && 0.0 <= pos1 <= pos2 <= (|v| - 1) as real
    ensures Interpolate(v, pos1) <= Interpolate(v, pos2)
  {
    var lo1, lo2 := pos1.Floor, pos2.Floor;
    var hi1 := Upper(|v|, lo1);
    if lo1 == lo2 {
      assert Interpolate(v, pos1) == Lerp(v[lo1], v[hi1], pos1 - lo1 as real);
      assert Interpolate(v, pos2) == Lerp(v[lo1], v[hi1], pos2 - lo1 as real);
      LerpMonotone(v[lo1], v[hi1], pos1 - lo1 as real, pos2 - lo1 as real);
    } else {
      assert lo1 as real <= pos1 <= pos2 < lo2 as real + 1.0;
      assert lo1 < lo2 < |v|;
      assert hi1 == lo1 + 1;
      assert v[hi1] <= v[lo2];
      assert Interpolate(v, pos1) <= v[hi1];
      assert v[lo2] <= Interpolate(v, pos2);
    }
  }

  /** A higher order never gives a lower quantile, so the two tertile
      thresholds are always ordered. */
  lemma QuantileMonotone(v: seq<real>, p1: real, p2: real)
    requires |v| > 0 && SortedAsc(v) && 0.0 <= p1 <= p2 <= 1.0
    ensures QuantileSorted(v, p1) <= QuantileSorted(v, p2)
  {
    PositionBounds(|v|, p1);
    PositionBounds(|v|, p2);
    PositionMonotone(|v|, p1, p2);
    InterpolateMonotone(v, Position(|v|, p1), Position(|v|, p2));
  }

  /** The two tertile thresholds of a non-empty column. */
  function Thresholds(values: seq<real>): (t: (real, real))
    requires |values| > 0
    ensures t.0 <= t.1
  {
    var v := SortAscending(values);
    assert |v| == |multiset(v)| == |multiset(values)| == |values|;
    QuantileMonotone(v, P33, P67);
    (QuantileSorted(v, P33), QuantileSorted(v, P67))
  }

  /** The labels of one column, computed from that column alone. */
  function ClassifyColumn(values: seq<real>): (labels: seq<Label>)
    ensures |labels| == |values|
  {
    if |values| == 0 then []
    else
      var t := Thresholds(values);
      seq(|values|, i requires 0 <= i < |values| => Classify(values[i], t.0, t.1))
  }

  /** Each label of a non-empty column is the rule applied with that
      column's thresholds. */
  lemma ClassifyColumnByThresholds(values: seq<real>, i: nat)
    requires i < |values|
    ensures ClassifyColumn(values)[i] == Classify(values[i], Thresholds(values).0, Thresholds(values).1)
  {
  }

  /** Within a column, a larger value never gets a lower category. */
  lemma ClassifyColumnOrderPreserving(values: seq<real>, i: nat, j: nat)
    requires i < |values| && j < |values| && values[i] <= values[j]
    ensures ClassifyColumn(values)[i].Rank() <= ClassifyColumn(values)[j].Rank()
  {
    var t := Thresholds(values);
    ClassifyMonotone(values[i], values[j], t.0, t.1);
  }

  /** The smallest value of a column is always labelled Faible. */
  lemma {:induction false} SmallestIsFaible(values: seq<real>, i: nat)
    requires i < |values|
    requires forall j :: 0 <= j < |values| ==> values[i] <= values[j]
    ensures ClassifyColumn(values)[i] == Faible
  {
    var v := SortAscending(values);
    assert |v| == |multiset(v)| == |multiset(values)| == |values|;
    assert v[0] in multiset(values);
    var k :| 0 <= k < |values| && values[k] == v[0];
    var q33 := QuantileSorted(v, P33);
    assert values[i] <= v[0] <= q33;
  }

  /** The column 1, 2, ..., 9. */
  const Nine: seq<real> := seq(9, i => (i + 1) as real)

  lemma NineSorted()
    ensures SortedAsc(Nine) && SortAscending(Nine) == Nine
  {
    SortAscendingSorted(Nine);
  }

  /** A quantile whose position falls strictly inside the column
      interpolates between the two values around that position. */
  lemma QuantileBetween(v: seq<real>, p: real, lo: nat)
    requires |v| > 0 && SortedAsc(v) && 0.0 <= p <= 1.0
    requires Position(|v|, p).Floor == lo && lo + 1 < |v|
    ensures QuantileSorted(v, p) == Lerp(v[lo], v[lo + 1], Position(|v|, p) - lo as real)
  {
  }

  /** Where the two tertiles fall among nine values. */
  lemma NinePositions()
    ensures Position(9, P33) == 2.6664 && Position(9, P33).Floor == 2
    ensures Position(9, P67) == 5.3336 && Position(9, P67).Floor == 5
  {
    assert (2.6664).Floor == 2;
    assert (5.3336).Floor == 5;
  }

  lemma NineLowerTertile()
    ensures SortedAsc(Nine) && QuantileSorted(Nine, P33) == 3.6664
  {
    NineSorted();
    NinePositions();
    QuantileBetween(Nine, P33, 2);
    assert Lerp(3.0, 4.0, 0.6664) == 3.6664;
  }

  lemma NineUpperTertile()
    ensures SortedAsc(Nine) && QuantileSorted(Nine, P67) == 6.3336
  {
    NineSorted();
    NinePositions();
    QuantileBetween(Nine, P67, 5);
    assert Lerp(6.0, 7.0, 0.3336) == 6.3336;
  }

  /** The tertiles of 1, 2, ..., 9. */
  lemma NineValuesThresholds()
    ensures Thresholds(Nine) == (3.6664, 6.3336)
  {
    NineSorted();
    NineLowerTertile();
    NineUpperTertile();
  }

  lemma NineRule(i: nat)
    requires i < 9
    ensures Classify(Nine[i], 3.6664, 6.3336) == if i < 3 then Faible else if i < 6 then Moyen else Eleve
  {
  }

  lemma NineColumnEntry(i: nat)
    requires i < 9
    ensures ClassifyColumn(Nine)[i] == Classify(Nine[i], 3.6664, 6.3336)
  {
    ClassifyColumnByThresholds(Nine, i);
    NineValuesThresholds();
  }

  /** Nine evenly spaced values split three by three: 1-3 Faible, 4-6
      Moyen, 7-9 Élevé. */
  lemma NineValuesSplitEvenly(i: nat)
    requires i < 9
    ensures ClassifyColumn(Nine)[i] == if i < 3 then Faible else if i < 6 then Moyen else Eleve
  {
    NineColumnEntry(i);
    NineRule(i);
  }

  // ---------------------------------------------------------------------
  //  The discretised table
  // ---------------------------------------------------------------------

  /** A column of the input table: numeric, or of another type (the date). */
  datatype Column =
    | NumericColumn(name: string, values: seq<real>)
    | OtherColumn(name: string, cells: seq<string>)
  {
    function Rows(): nat
    {
      match this
      case NumericColumn(_, values) => |values|
      case OtherColumn(_, cells) => |cells|
    }
  }

  /** A column of the output table: the copied date column, or the labels
      of one numeric column. */
  datatype OutColumn =
    | DateColumn(source: Column)
    | CategoryColumn(name: string, labels: seq<Label>)
  {
    function Name(): string
    {
      match this
      case DateColumn(_) => "Date"
      case CategoryColumn(name, _) => name
    }

    function Rows(): nat
    {
      match this
      case DateColumn(source) => source.Rows()
      case CategoryColumn(_, labels) => |labels|
    }
  }

  /** In a data frame every column has the same number of rows ... */
  predicate SameRowCounts(table: seq<Column>)
  {
    forall i, j :: 0 <= i < |table| && 0 <= j < |table| ==> table[i].Rows() == table[j].Rows()
  }

  /** Every name `discretiser_acm` looks up is unique: "Date" and the
      names of the numeric columns each name one column only. A name that
      two other columns share is never looked up. */
  predicate UnambiguousNames(table: seq<Column>)
  {
    forall i, j :: 0 <= i < j < |table| && table[i].name == table[j].name ==>
      table[i].OtherColumn? && table[j].OtherColumn? && table[i].name != "Date"
  }

  /** The positions, from `from` on, of the table's numeric columns:
      strictly increasing, each that of a numeric column. */
  function NumericPositions(table: seq<Column>, from: nat): (idx: seq<nat>)
    requires from <= |table|
    ensures |idx| <= |table| - from
    ensures forall k :: 0 <= k < |idx| ==> from <= idx[k] < |table| && table[idx[k]].NumericColumn?
    ensures forall a, b :: 0 <= a < b < |idx| ==> idx[a] < idx[b]
    decreases |table| - from
  {
    if from == |table| then []
    else
      var rest := NumericPositions(table, from + 1);
      if table[from].NumericColumn? then
        assert forall k :: 0 < k < |rest| + 1 ==> ([from] + rest)[k] == rest[k - 1];
        [from] + rest
      else
        rest
  }

  /** No numeric column from `from` on is skipped. */
  lemma {:induction false} NumericPositionsComplete(table: seq<Column>, from: nat)
    requires from <= |table|
    ensures forall j :: from <= j < |table| && table[j].NumericColumn? ==> j in NumericPositions(table, from)
    decreases |table| - from
  {
    if from < |table| {
      NumericPositionsComplete(table, from + 1);
    }
  }

  /** The numeric columns from position `from` on, in the table's order. */
  function NumericColumnsFrom(table: seq<Column>, from: nat): (nums: seq<Column>)
    requires from <= |table|
    ensures AllNumeric(nums)
    decreases |table| - from
  {
    if from == |table| then []
    else (if table[from].NumericColumn? then [table[from]] else []) + NumericColumnsFrom(table, from + 1)
  }

  /** `select_dtypes(include=[np.number])`: the numeric columns. */
  function NumericColumns(table: seq<Column>): (nums: seq<Column>)
    ensures AllNumeric(nums)
  {
    NumericColumnsFrom(table, 0)
  }

  /** The k-th numeric column is the table's column at the k-th numeric
      position: the numeric columns keep the table's order. */
  lemma {:induction false} NumericColumnsAt(table: seq<Column>, from: nat)
    requires from <= |table|
    ensures |NumericColumnsFrom(table, from)| == |NumericPositions(table, from)|
    ensures forall k :: 0 <= k < |NumericColumnsFrom(table, from)| ==>
              NumericColumnsFrom(table, from)[k] == table[NumericPositions(table, from)[k]]
    decreases |table| - from
  {
    if from < |table| {
      NumericColumnsAt(table, from + 1);
      var nums, idx := NumericColumnsFrom(table, from + 1), NumericPositions(table, from + 1);
      if table[from].NumericColumn? {
        assert NumericColumnsFrom(table, from) == [table[from]] + nums;
        assert NumericPositions(table, from) == [from] + idx;
        ConsAt(table, from, nums, idx);
      } else {
        assert NumericColumnsFrom(table, from) == nums;
      }
    }
  }

  /** A numeric column in front of the later ones matches its own
      position in front of the later positions. */
  lemma ConsAt(table: seq<Column>, from: nat, nums: seq<Column>, idx: seq<nat>)
    requires from < |table| && |nums| == |idx|
    requires forall k :: 0 <= k < |idx| ==> idx[k] < |table| && nums[k] == table[idx[k]]
    ensures forall k :: 0 <= k < |nums| + 1 ==> ([table[from]] + nums)[k] == table[([from] + idx)[k]]
  {
    forall k | 0 < k < |nums| + 1
      ensures ([table[from]] + nums)[k] == table[([from] + idx)[k]]
    {
      assert ([table[from]] + nums)[k] == nums[k - 1];
      assert ([from] + idx)[k] == idx[k - 1];
    }
  }

  /** The numeric columns are exactly the table's columns of numeric type. */
  lemma NumericColumnsExact(table: seq<Column>)
    ensures forall c :: c in NumericColumns(table) ==> c in table && c.NumericColumn?
    ensures forall c :: c in table && c.NumericColumn? ==> c in NumericColumns(table)
  {
    NumericColumnsAt(table, 0);
    NumericColumnsSound(table);
    NumericPositionsComplete(table, 0);
    NumericColumnsComplete(table);
  }

  /** Every listed column is a numeric column of the table. */
  lemma NumericColumnsSound(table: seq<Column>)
    requires |NumericColumns(table)| == |NumericPositions(table, 0)|
    requires forall k :: 0 <= k < |NumericColumns(table)| ==>
               NumericColumns(table)[k] == table[NumericPositions(table, 0)[k]]
    ensures forall c :: c in NumericColumns(table) ==> c in table && c.NumericColumn?
  {
    var nums, idx := NumericColumns(table), NumericPositions(table, 0);
    forall c | c in nums
      ensures c in table && c.NumericColumn?
    {
      var k :| 0 <= k < |nums| && nums[k] == c;
      assert table[idx[k]] == c;
    }
  }

  /** Every numeric column of the table is listed. */
  lemma NumericColumnsComplete(table: seq<Column>)
    requires |NumericColumns(table)| == |NumericPositions(table, 0)|
    requires forall k :: 0 <= k < |NumericColumns(table)| ==>
               NumericColumns(table)[k] == table[NumericPositions(table, 0)[k]]
    requires forall j :: 0 <= j < |table| && table[j].NumericColumn? ==> j in NumericPositions(table, 0)
    ensures forall c :: c in table && c.NumericColumn? ==> c in NumericColumns(table)
  {
    var nums, idx := NumericColumns(table), NumericPositions(table, 0);
    forall c | c in table && c.NumericColumn?
      ensures c in nums
    {
      var j :| 0 <= j < |table| && table[j] == c;
      var k :| 0 <= k < |idx| && idx[k] == j;
      assert nums[k] == c;
    }
  }

  /** Two numeric columns differ in name when no looked-up name repeats. */
  lemma NumericNamesDiffer(table: seq<Column>, i: nat, j: nat)
    requires UnambiguousNames(table) && i < j < |NumericColumns(table)|
    ensures NumericColumns(table)[i].name != NumericColumns(table)[j].name
  {
    var idx := NumericPositions(table, 0);
    NumericColumnsAt(table, 0);
    assert idx[i] < idx[j];
  }

  /** The numeric columns have distinct names when no looked-up name
      repeats. */
  lemma NumericColumnsDistinct(table: seq<Column>)
    requires UnambiguousNames(table)
    ensures forall i, j :: 0 <= i < j < |NumericColumns(table)| ==>
              NumericColumns(table)[i].name != NumericColumns(table)[j].name
  {
    forall i, j | 0 <= i < j < |NumericColumns(table)|
      ensures NumericColumns(table)[i].name != NumericColumns(table)[j].name
    {
      NumericNamesDiffer(table, i, j);
    }
  }

  /** Where the column called "Date" is, if there is one. */
  function DateIndex(table: seq<Column>): (d: Option<nat>)
    ensures d.Some? ==> d.value < |table| && table[d.value].name == "Date"
    ensures d.None? ==> forall i :: 0 <= i < |table| ==> table[i].name != "Date"
  {
    if |table| == 0 then None
    else if table[0].name == "Date" then Some(0)
    else match DateIndex(table[1..])
         case None => None
         case Some(k) => Some(k + 1)
  }

  /** The output name of a numeric column. */
  function CategoryName(col: string): (name: string)
    ensures |name| == |col| + 4 && name[..|col|] == col && name[|col|..] == "_cat"
  {
    col + "_cat"
  }

  /** Different numeric columns get different output names. */
  lemma CategoryNameDistinct(a: string, b: string)
    requires a != b
    ensures CategoryName(a) != CategoryName(b)
  {
    if |a| == |b| {
      assert a == CategoryName(a)[..|a|];
      assert b == CategoryName(b)[..|b|];
    }
  }

  /** The output column for one numeric column. */
  function Discretise(c: Column): (out: OutColumn)
    requires c.NumericColumn?
    ensures out.Name() == CategoryName(c.name) && out.Rows() == c.Rows()
  {
    CategoryColumn(CategoryName(c.name), ClassifyColumn(c.values))
  }

  predicate AllNumeric(nums: seq<Column>)
  {
    forall k :: 0 <= k < |nums| ==> nums[k].NumericColumn?
  }

  /** The labelled columns of the given numeric columns, in order. */
  function Discretised(nums: seq<Column>): (cols: seq<OutColumn>)
    requires AllNumeric(nums)
    ensures |cols| == |nums|
    ensures forall k :: 0 <= k < |nums| ==> cols[k] == Discretise(nums[k])
  {
    if |nums| == 0 then []
    else Discretised(nums[..|nums| - 1]) + [Discretise(nums[|nums| - 1])]
  }

  lemma DiscretisedStep(nums: seq<Column>, k: nat)
    requires AllNumeric(nums) && k < |nums|
    ensures AllNumeric(nums[..k]) && AllNumeric(nums[..k + 1])
    ensures Discretised(nums[..k + 1]) == Discretised(nums[..k]) + [Discretise(nums[k])]
  {
    assert nums[..k + 1][..k] == nums[..k];
  }

  /** The table `discretiser_acm` builds: the date column, then the
      labelled numeric columns. */
  function Layout(table: seq<Column>): (cols: seq<OutColumn>)
    requires DateIndex(table).Some?
    ensures |cols| == |NumericColumns(table)| + 1
    ensures cols[0] == DateColumn(table[DateIndex(table).value])
    ensures forall k :: 0 <= k < |NumericColumns(table)| ==>
              cols[k + 1] == Discretise(NumericColumns(table)[k])
  {
    var nums := NumericColumns(table);
    [DateColumn(table[DateIndex(table).value])] + Discretised(nums)
  }

  /** The labelled columns follow the table's own order: column k + 1 of
      the built table is the labelled column at the k-th numeric position,
      and those positions increase. */
  lemma LayoutInTableOrder(table: seq<Column>)
    requires DateIndex(table).Some?
    ensures |Layout(table)| == |NumericPositions(table, 0)| + 1
    ensures forall k :: 0 <= k < |NumericPositions(table, 0)| ==>
              table[NumericPositions(table, 0)[k]].NumericColumn?
              && Layout(table)[k + 1] == Discretise(table[NumericPositions(table, 0)[k]])
    ensures forall a, b :: 0 <= a < b < |NumericPositions(table, 0)| ==>
              NumericPositions(table, 0)[a] < NumericPositions(table, 0)[b]
  {
    NumericColumnsAt(table, 0);
  }

  /** In a table whose columns all have the same length, every column of
      the built table has one row per input row. */
  lemma LayoutRows(table: seq<Column>)
    requires SameRowCounts(table) && DateIndex(table).Some?
    ensures forall k :: 0 <= k < |Layout(table)| ==>
              Layout(table)[k].Rows() == table[DateIndex(table).value].Rows()
  {
    NumericColumnsRows(table, DateIndex(table).value);
    LayoutRowsFromNumeric(table);
  }

  /** Every numeric column has as many rows as column n. */
  lemma NumericColumnsRows(table: seq<Column>, n: nat)
    requires SameRowCounts(table) && n < |table|
    ensures forall k :: 0 <= k < |NumericColumns(table)| ==> NumericColumns(table)[k].Rows() == table[n].Rows()
  {
    NumericColumnsAt(table, 0);
  }

  lemma LayoutRowsFromNumeric(table: seq<Column>)
    requires DateIndex(table).Some?
    requires forall k :: 0 <= k < |NumericColumns(table)| ==>
               NumericColumns(table)[k].Rows() == table[DateIndex(table).value].Rows()
    ensures forall k :: 0 <= k < |Layout(table)| ==>
              Layout(table)[k].Rows() == table[DateIndex(table).value].Rows()
  {
  }

  /** The name of each column of the built table. */
  lemma LayoutName(table: seq<Column>, k: nat)
    requires DateIndex(table).Some? && k < |Layout(table)|
    ensures k == 0 ==> Layout(table)[k].Name() == "Date"
    ensures k > 0 ==> Layout(table)[k].Name() == CategoryName(NumericColumns(table)[k - 1].name)
  {
  }

  /** Two columns of the built table have different names when the
      numeric columns they come from do. */
  lemma LayoutNamePair(table: seq<Column>, a: nat, b: nat)
    requires DateIndex(table).Some? && a < b < |Layout(table)|
    requires a > 0 ==> NumericColumns(table)[a - 1].name != NumericColumns(table)[b - 1].name
    ensures Layout(table)[a].Name() != Layout(table)[b].Name()
  {
    var y := NumericColumns(table)[b - 1].name;
    assert Layout(table)[b].Name() == CategoryName(y) by {
      LayoutName(table, b);
    }
    if a == 0 {
      assert Layout(table)[a].Name() == "Date" by {
        LayoutName(table, a);
      }
      assert CategoryName(y)[|y|..] == "_cat";
    } else {
      var x := NumericColumns(table)[a - 1].name;
      assert Layout(table)[a].Name() == CategoryName(x) by {
        LayoutName(table, a);
      }
      CategoryNameDistinct(x, y);
    }
  }

  /** When no looked-up name repeats, no two columns of the built table
      share a name. */
  lemma LayoutNamesDistinct(table: seq<Column>)
    requires UnambiguousNames(table) && DateIndex(table).Some?
    ensures forall a, b :: 0 <= a < b < |Layout(table)| ==> Layout(table)[a].Name() != Layout(table)[b].Name()
  {
    NumericColumnsDistinct(table);
    LayoutNamesFromNumeric(table);
  }

  lemma LayoutNamesFromNumeric(table: seq<Column>)
    requires DateIndex(table).Some?
    requires forall i, j :: 0 <= i < j < |NumericColumns(table)| ==>
               NumericColumns(table)[i].name != NumericColumns(table)[j].name
    ensures forall a, b :: 0 <= a < b < |Layout(table)| ==> Layout(table)[a].Name() != Layout(table)[b].Name()
  {
    forall a, b | 0 <= a < b < |Layout(table)|
      ensures Layout(table)[a].Name() != Layout(table)[b].Name()
    {
      LayoutNamePair(table, a, b);
    }
  }

  /** `discretiser_acm`: fails when the table has no date column
      (`df["Date"]`), or when "Date" or a numeric column's name names two
      columns (the lookup then yields two columns, which cannot be stored
      as one); otherwise builds the date column followed by one labelled
      column per numeric column, column by column, in the table's own
      order, under distinct names. */
  method DiscretiserAcm(table: seq<Column>) returns (out: Option<seq<OutColumn>>)
    ensures out.None? <==> DateIndex(table).None? || !UnambiguousNames(table)
    ensures out.Some? ==> out.value == Layout(table)
    ensures out.Some? ==> out.value[0] == DateColumn(table[DateIndex(table).value])
    ensures out.Some? ==> |out.value| == |NumericPositions(table, 0)| + 1
    ensures out.Some? ==> forall k :: 0 <= k < |NumericPositions(table, 0)| ==>
              out.value[k + 1] == Discretise(table[NumericPositions(table, 0)[k]])
    ensures out.Some? ==> forall a, b :: 0 <= a < b < |out.value| ==> out.value[a].Name() != out.value[b].Name()
  {
    var d := DateIndex(table);
    if d.None? || !UnambiguousNames(table) {
      return None;
    }
    var nums := NumericColumns(table);
    var cols := [DateColumn(table[d.value])];
    for k := 0 to |nums|
      invariant cols == [DateColumn(table[d.value])] + Discretised(nums[..k])
    {
      DiscretisedStep(nums, k);
      cols := cols + [Discretise(nums[k])];
    }
    assert nums[..|nums|] == nums;
    out := Some(cols);
    LayoutInTableOrder(table);
    LayoutNamesDistinct(table);
  }

  // ---------------------------------------------------------------------
  //  Strongly correlated pairs
  // ---------------------------------------------------------------------

  /** A reported pair of variables (by position) and their correlation. */
  datatype CorrelatedPair = CorrelatedPair(i: nat, j: nat, r: real)

  const StrongThreshold: real := 0.5

  /** The pair p is reported before q: by first variable, then second. */
  predicate Before(p: CorrelatedPair, q: CorrelatedPair)
  {
    p.i < q.i || (p.i == q.i && p.j < q.j)
  }

  /** A pair that may be reported: above the diagonal, with its own
      correlation, which exceeds 0.5 in absolute value. */
  predicate Sound(corr: seq<seq<real>>, p: CorrelatedPair)
    requires forall i :: 0 <= i < |corr| ==> |corr[i]| == |corr|
  {
    p.i < p.j < |corr| && p.r == corr[p.i][p.j] && Abs(p.r) > StrongThreshold
  }

  /** The loop over the upper triangle of the correlation matrix: every pair
      i < j whose correlation exceeds 0.5 in absolute value, each once, in
      the order visited. */
  method StrongCorrelations(corr: seq<seq<real>>) returns (pairs: seq<CorrelatedPair>)
    requires forall i :: 0 <= i < |corr| ==> |corr[i]| == |corr|
    ensures forall t :: 0 <= t < |pairs| ==>
              pairs[t].i < pairs[t].j < |corr|
              && pairs[t].r == corr[pairs[t].i][pairs[t].j]
              && Abs(pairs[t].r) > StrongThreshold
    ensures forall i, j :: 0 <= i < j < |corr| ==>
              (Abs(corr[i][j]) > StrongThreshold <==> CorrelatedPair(i, j, corr[i][j]) in pairs)
    ensures forall s, t :: 0 <= s < t < |pairs| ==> Before(pairs[s], pairs[t])
  {
    var n := |corr|;
    pairs := [];
    for i := 0 to n
      invariant forall t :: 0 <= t < |pairs| ==> Sound(corr, pairs[t]) && pairs[t].i < i
      invariant forall a, b :: 0 <= a < i && a < b < n && Abs(corr[a][b]) > StrongThreshold ==>
                  CorrelatedPair(a, b, corr[a][b]) in pairs
      invariant forall s, t :: 0 <= s < t < |pairs| ==> Before(pairs[s], pairs[t])
    {
      for j := i + 1 to n
        invariant forall t :: 0 <= t < |pairs| ==> Sound(corr, pairs[t]) && Before(pairs[t], CorrelatedPair(i, j, 0.0))
        invariant forall a, b :: 0 <= a < i && a < b < n && Abs(corr[a][b]) > StrongThreshold ==>
                    CorrelatedPair(a, b, corr[a][b]) in pairs
        invariant forall b :: i < b < j && Abs(corr[i][b]) > StrongThreshold ==>
                    CorrelatedPair(i, b, corr[i][b]) in pairs
        invariant forall s, t :: 0 <= s < t < |pairs| ==> Before(pairs[s], pairs[t])
      {
        var r := corr[i][j];
        if Abs(r) > StrongThreshold {
          pairs := pairs + [CorrelatedPair(i, j, r)];
        }
      }
    }
  }
}
