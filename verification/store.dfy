/**
  The collection itself: a fixed length, the run list, the index of the most recently
  used run and the value-access policy, with the public operations of `RleCollection<T>`.
  Every operation validates its arguments before it touches the runs; a rejected call
  yields the kind of exception the C# code throws and no new state. The run index is only
  a lookup hint: every result below holds whatever its value, so it is kept as it was.
*/
module Store {
  import opened Errors
  import opened Runs
  import opened RunAlgebra
  import opened Lookup
  import opened Sequences
  import opened PointSet
  import opened RangeOps
  import opened Unchecked

  datatype Collection<T> = Collection(length: int, runs: seq<Run<T>>, mru: int, immutableValues: bool)

  /** The runs tile [0, length - 1]; every operation keeps this. */
  predicate WellFormed<T>(c: Collection<T>) {
    c.length >= 1 && Chain(c.runs, 0, c.length - 1)
  }

  /** Well-formed, and no two neighbouring runs hold the same value. */
  predicate Valid<T(==)>(c: Collection<T>) {
    WellFormed(c) && Compressed(c.runs)
  }

  /** The values at indices 0 .. length - 1, in order. */
  function Content<T>(c: Collection<T>): (s: seq<T>)
    requires WellFormed(c)
    ensures |s| == c.length
  {
    ChainLength(c.runs, 0, c.length - 1);
    Flatten(c.runs)
  }

  /** What the getter needs to know about a value it hands out. */
  datatype ValueTraits<!T> = ValueTraits(isNull: T -> bool, cloneable: T -> bool)

  // ---------------------------------------------------------------------------------
  // Validation

  /** `CheckIndex`: an index outside [0, length - 1] is out of range. */
  function CheckIndex(length: int, index: int): (r: Outcome)
    ensures r.Pass? <==> 0 <= index < length
    ensures r.Fail? ==> r.error == IndexOutOfRange
  {
    if index < 0 || index >= length then Fail(IndexOutOfRange) else Pass
  }

  /**
    `CheckRangeIndexes`: both ends are checked against the bounds (start first), and
    only then is a reversed window rejected as a bad argument.
  */
  function CheckRangeIndexes(length: int, start: int, end: int): (r: Outcome)
    ensures r.Pass? <==> 0 <= start <= end < length
    ensures r.Fail? ==> r.error == (if 0 <= start < length && 0 <= end < length then Argument else IndexOutOfRange)
  {
    var first := CheckIndex(length, start);
    if first.Fail? then first
    else
      var last := CheckIndex(length, end);
      if last.Fail? then last
      else if start > end then Fail(Argument)
      else Pass
  }

  /**
    `CheckIndexAndCount`: a count below 1 is refused first, then an index out of range,
    then a window running past the end.
  */
  function CheckIndexAndCount(length: int, index: int, count: int): (r: Outcome)
    ensures r.Pass? <==> 1 <= count && 0 <= index && index + count <= length
    ensures r.Fail? ==> r.error == (if count < 1 then NotPositive else if !(0 <= index < length) then IndexOutOfRange else Argument)
  {
    if count < 1 then Fail(NotPositive)
    else
      var at := CheckIndex(length, index);
      if at.Fail? then at
      else if index + count > length then Fail(Argument)
      else Pass
  }

  /**
    `CheckIndexAndCount` as the C# code evaluates it: `index + count` is an unchecked 32-bit
    sum, so a window reaching past `int.MaxValue` wraps negative and passes the last test.
    On 32-bit arguments it passes exactly for a valid count and index whose window either
    fits or overflows; without overflow it is the check above.
  */
  function CheckIndexAndCountAsWritten(length: int, index: int, count: int): (r: Outcome)
    ensures index + count <= MaxValue ==> r == CheckIndexAndCount(length, index, count)
    ensures MinValue <= index <= MaxValue && MinValue <= count <= MaxValue && 0 <= length ==>
      (r.Pass? <==> 1 <= count && 0 <= index < length && (index + count <= length || MaxValue < index + count))
  {
    if count < 1 then Fail(NotPositive)
    else
      var at := CheckIndex(length, index);
      if at.Fail? then at
      else if Wrap(index + count) > length then Fail(Argument)
      else Pass
  }

  /** As written, `Remove(1, int.MaxValue)` on ten values passes the check the corrected form refuses. */
  lemma AsWrittenPassesOverflowingCount()
    ensures CheckIndexAndCountAsWritten(10, 1, MaxValue) == Pass
    ensures CheckIndexAndCount(10, 1, MaxValue) == Fail(Argument)
  {
  }

  // ---------------------------------------------------------------------------------
  // Construction and point access

  /** A collection of `length` copies of `defaultValue`, held as one run. */
  function New<T>(length: int, defaultValue: T, immutableValues: bool): (r: Result<Collection<T>>)
    ensures r.Err? <==> length < 1
    ensures r.Err? ==> r.error == NotPositive
    ensures r.Ok? ==> Valid(r.value) && r.value.length == length && r.value.immutableValues == immutableValues
    ensures r.Ok? ==> Content(r.value) == Fill(defaultValue, length)
  {
    if length < 1 then Err(NotPositive)
    else
      FlattenSingle(Run(defaultValue, 0, length - 1));
      Ok(Collection(length, [Run(defaultValue, 0, length - 1)], 0, immutableValues))
  }

  /** `GetItemIndex` on a collection, starting from its cursor: the run that holds `index`. */
  function ItemIndex<T>(c: Collection<T>, index: int): (k: int)
    requires WellFormed(c) && 0 <= index < c.length
    ensures 0 <= k < |c.runs| && Covers(c.runs[k], index)
  {
    LocateIgnoresHint(c.runs, 0, c.length - 1, index, c.mru);
    Locate(c.runs, index, c.mru)
  }

  /**
    The indexer's getter: the value of the run holding `index`, handed out as it is when
    values are immutable or it is null, and as a clone otherwise; a value that cannot be
    cloned is refused. A clone stands for an equal value.
  */
  function Get<T>(c: Collection<T>, traits: ValueTraits<T>, index: int): (r: Result<T>)
    requires WellFormed(c)
    ensures r.Ok? <==>
      0 <= index < c.length && (c.immutableValues || traits.isNull(Content(c)[index]) || traits.cloneable(Content(c)[index]))
    ensures r.Ok? ==> r.value == Content(c)[index]
    ensures r.Err? ==> r.error == (if 0 <= index < c.length then InvalidOperation else IndexOutOfRange)
  {
    if CheckIndex(c.length, index).Fail? then Err(IndexOutOfRange)
    else
      LocateValue(c.runs, c.length - 1, index, c.mru);
      var v := c.runs[Locate(c.runs, index, c.mru)].value;
      if c.immutableValues || traits.isNull(v) then Ok(v)
      else if !traits.cloneable(v) then Err(InvalidOperation)
      else Ok(v)
  }

  /** The indexer's setter: exactly index `index` now holds `value`. */
  function SetItem<T(==)>(c: Collection<T>, index: int, value: T): (r: Result<Collection<T>>)
    requires WellFormed(c)
    ensures r.Err? <==> !(0 <= index < c.length)
    ensures r.Err? ==> r.error == IndexOutOfRange
    ensures r.Ok? ==> WellFormed(r.value) && r.value.length == c.length && r.value.immutableValues == c.immutableValues
    ensures r.Ok? ==> Content(r.value) == Content(c)[index := value]
    ensures r.Ok? && Valid(c) ==> Valid(r.value)
    ensures r.Ok? && Content(c)[index] == value ==> r.value == c
  {
    if CheckIndex(c.length, index).Fail? then Err(IndexOutOfRange)
    else
      SetValueSpec(c.runs, c.length - 1, index, value, c.mru);
      Ok(c.(runs := SetValue(c.runs, index, value, c.mru)))
  }

  // ---------------------------------------------------------------------------------
  // Ranges

  /** The one-run block the scalar `SetRange` and `Insert` build. */
  lemma SingleBlock<T>(value: T, n: int, last: int)
    requires n >= 1 && last == n - 1
    ensures Chain([Run(value, 0, last)], 0, n - 1) && DistinctUnder([Run(value, 0, last)], None)
    ensures Flatten([Run(value, 0, last)]) == Fill(value, n) && ConvertAll(None, Fill(value, n)) == Fill(value, n)
  {
    FlattenSingle(Run(value, 0, last));
  }

  /** The window [start, end] of the collection as a collection of its own. */
  lemma WindowOf<T>(c: Collection<T>, start: int, end: int)
    requires WellFormed(c) && 0 <= start <= end < c.length
    ensures var r := Collection(end - start + 1, WindowRuns(c.runs, start, end, c.mru), 0, c.immutableValues);
      && WellFormed(r) && Content(r) == Content(c)[start..end + 1]
      && (Valid(c) ==> Valid(r))
  {
    WindowRunsSpec(c.runs, c.length - 1, start, end, c.mru);
    var r := Collection(end - start + 1, WindowRuns(c.runs, start, end, c.mru), 0, c.immutableValues);
    assert r.length - 1 == end - start;
    assert Content(r) == Flatten(r.runs) && Content(c) == Flatten(c.runs);
  }

  /** `GetRange`: a new collection of the window [start, end], sharing the value policy. */
  function GetRange<T>(c: Collection<T>, start: int, end: int): (r: Result<Collection<T>>)
    requires WellFormed(c)
    ensures r.Err? <==> !(0 <= start <= end < c.length)
    ensures r.Err? ==> Fail(r.error) == CheckRangeIndexes(c.length, start, end)
    ensures r.Ok? ==> WellFormed(r.value) && r.value.length == end - start + 1 && r.value.immutableValues == c.immutableValues
    ensures r.Ok? ==> Content(r.value) == Content(c)[start..end + 1]
    ensures r.Ok? && Valid(c) ==> Valid(r.value)
  {
    var check := CheckRangeIndexes(c.length, start, end);
    if check.Fail? then Err(check.error)
    else
      WindowOf(c, start, end);
      Ok(Collection(end - start + 1, WindowRuns(c.runs, start, end, c.mru), 0, c.immutableValues))
  }

  /** The collection with a block of `n` values written over it from `start`. */
  function Written<T(==)>(c: Collection<T>, start: int, block: seq<Run<T>>, n: int, converter: Option<T -> T>): (r: Collection<T>)
    requires WellFormed(c) && Chain(block, 0, n - 1) && 1 <= n && 0 <= start && start + n <= c.length
    ensures |Flatten(block)| == n
    ensures WellFormed(r) && r.length == c.length && r.immutableValues == c.immutableValues
    ensures Content(r) == Overwrite(Content(c), start, ConvertAll(converter, Flatten(block)))
    ensures Valid(c) && DistinctUnder(block, converter) ==> Valid(r)
  {
    WriteBlock(c, start, block, n, converter);
    c.(runs := SetRangeCore(c.runs, start, block, converter, c.mru))
  }

  lemma WriteBlock<T>(c: Collection<T>, start: int, block: seq<Run<T>>, n: int, converter: Option<T -> T>)
    requires WellFormed(c) && Chain(block, 0, n - 1) && 1 <= n && 0 <= start && start + n <= c.length
    ensures |Flatten(block)| == n
    ensures var r := c.(runs := SetRangeCore(c.runs, start, block, converter, c.mru));
      && WellFormed(r) && Content(r) == Overwrite(Content(c), start, ConvertAll(converter, Flatten(block)))
      && (Valid(c) && DistinctUnder(block, converter) ==> Valid(r))
  {
    SetRangeCoreSpec(c.runs, c.length, start, block, n, converter, c.mru);
    var r := c.(runs := SetRangeCore(c.runs, start, block, converter, c.mru));
    assert Content(r) == Flatten(r.runs) && Content(c) == Flatten(c.runs);
  }

  /** `SetRange(start, end, value)`: the window [start, end] now holds `value` throughout. */
  function SetRangeValue<T(==)>(c: Collection<T>, start: int, end: int, value: T): (r: Result<Collection<T>>)
    requires WellFormed(c)
    ensures r.Err? <==> !(0 <= start <= end < c.length)
    ensures r.Err? ==> Fail(r.error) == CheckRangeIndexes(c.length, start, end)
    ensures r.Ok? ==> WellFormed(r.value) && r.value.length == c.length && r.value.immutableValues == c.immutableValues
    ensures r.Ok? ==> Content(r.value) == Overwrite(Content(c), start, Fill(value, end - start + 1))
    ensures r.Ok? && Valid(c) ==> Valid(r.value)
  {
    var check := CheckRangeIndexes(c.length, start, end);
    if check.Fail? then Err(check.error)
    else
      var block := [Run(value, 0, end - start)];
      SingleBlock(value, end - start + 1, end - start);
      Ok(Written(c, start, block, end - start + 1, None))
  }

  /**
    `SetRange(start, range, converter)`: the window from `start` now holds the range's
    values, passed through the converter when there is one. The result stays compressed
    when the converter keeps the range's neighbouring runs distinct.
  */
  function SetRange<T(==)>(c: Collection<T>, start: int, range: Option<Collection<T>>, converter: Option<T -> T>): (r: Result<Collection<T>>)
    requires WellFormed(c) && (range.Some? ==> WellFormed(range.value))
    ensures range.None? ==> r.Err? && r.error == ArgumentNull
    ensures range.Some? ==> (r.Err? <==> !(0 <= start && start + range.value.length <= c.length))
    ensures range.Some? && r.Err? ==> Fail(r.error) == CheckRangeIndexes(c.length, start, start + range.value.length - 1)
    ensures r.Ok? ==> range.Some? && WellFormed(r.value) && r.value.length == c.length && r.value.immutableValues == c.immutableValues
    ensures r.Ok? ==> Content(r.value) == Overwrite(Content(c), start, ConvertAll(converter, Content(range.value)))
    ensures r.Ok? && Valid(c) && DistinctUnder(range.value.runs, converter) ==> Valid(r.value)
  {
    if range.None? then Err(ArgumentNull)
    else
      var src := range.value;
      var check := CheckRangeIndexes(c.length, start, start + src.length - 1);
      if check.Fail? then Err(check.error)
      else
        assert Content(src) == Flatten(src.runs);
        Ok(Written(c, start, src.runs, src.length, converter))
  }

  // ---------------------------------------------------------------------------------
  // Insertion and removal

  /**
    `Insert(index, count, value)`: `count` copies of `value` go in at `index`, the rest
    moves forward and the last `count` values fall off the end.
  */
  function Insert<T(==)>(c: Collection<T>, index: int, count: int, value: T): (r: Result<Collection<T>>)
    requires WellFormed(c)
    ensures r.Err? <==> !(1 <= count && 0 <= index && index + count <= c.length)
    ensures r.Err? ==> Fail(r.error) == CheckIndexAndCount(c.length, index, count)
    ensures r.Ok? ==> WellFormed(r.value) && r.value.length == c.length && r.value.immutableValues == c.immutableValues
    ensures r.Ok? ==> Content(r.value) == InsertShift(Content(c), index, Fill(value, count))
    ensures r.Ok? && Valid(c) ==> Valid(r.value)
  {
    var check := CheckIndexAndCount(c.length, index, count);
    if check.Fail? then Err(check.error)
    else
      var block := [Run(value, 0, count - 1)];
      SingleBlock(value, count, count - 1);
      Ok(Shifted(c, index, block, count, None))
  }

  /** `Insert(index, value)`: one value in at `index`. */
  function InsertOne<T(==)>(c: Collection<T>, index: int, value: T): (r: Result<Collection<T>>)
    requires WellFormed(c)
    ensures r.Err? <==> !(0 <= index < c.length)
    ensures r.Err? ==> r.error == IndexOutOfRange
    ensures r.Ok? ==> WellFormed(r.value) && r.value.length == c.length && r.value.immutableValues == c.immutableValues
    ensures r.Ok? ==> Content(r.value) == InsertShift(Content(c), index, [value])
    ensures r.Ok? && Valid(c) ==> Valid(r.value)
  {
    assert Fill(value, 1) == [value];
    Insert(c, index, 1, value)
  }

  /** The collection with a block of `n` values inserted at `index`. */
  function Shifted<T(==)>(c: Collection<T>, index: int, block: seq<Run<T>>, n: int, converter: Option<T -> T>): (r: Collection<T>)
    requires WellFormed(c) && Chain(block, 0, n - 1) && 1 <= n && 0 <= index && index + n <= c.length
    ensures |Flatten(block)| == n
    ensures WellFormed(r) && r.length == c.length && r.immutableValues == c.immutableValues
    ensures Content(r) == InsertShift(Content(c), index, ConvertAll(converter, Flatten(block)))
    ensures Valid(c) && DistinctUnder(block, converter) ==> Valid(r)
  {
    ShiftBlock(c, index, block, n, converter);
    c.(runs := InsertRangeCore(c.runs, c.length, index, block, converter, c.mru))
  }

  lemma ShiftBlock<T>(c: Collection<T>, index: int, block: seq<Run<T>>, n: int, converter: Option<T -> T>)
    requires WellFormed(c) && Chain(block, 0, n - 1) && 1 <= n && 0 <= index && index + n <= c.length
    ensures |Flatten(block)| == n
    ensures var r := c.(runs := InsertRangeCore(c.runs, c.length, index, block, converter, c.mru));
      && WellFormed(r) && Content(r) == InsertShift(Content(c), index, ConvertAll(converter, Flatten(block)))
      && (Valid(c) && DistinctUnder(block, converter) ==> Valid(r))
  {
    InsertRangeCoreSpec(c.runs, c.length, index, block, n, converter, c.mru);
    var r := c.(runs := InsertRangeCore(c.runs, c.length, index, block, converter, c.mru));
    assert Content(r) == Flatten(r.runs) && Content(c) == Flatten(c.runs);
  }

  /**
    `Insert(index, range, converter)`: the range's values, passed through the converter
    when there is one, go in at `index`; the rest moves forward and the last
    values fall off the end.
  */
  function InsertRange<T(==)>(c: Collection<T>, index: int, range: Option<Collection<T>>, converter: Option<T -> T>): (r: Result<Collection<T>>)
    requires WellFormed(c) && (range.Some? ==> WellFormed(range.value))
    ensures range.None? ==> r.Err? && r.error == ArgumentNull
    ensures range.Some? ==> (r.Err? <==> !(0 <= index && index + range.value.length <= c.length))
    ensures range.Some? && r.Err? ==> Fail(r.error) == CheckIndexAndCount(c.length, index, range.value.length)
    ensures r.Ok? ==> range.Some? && WellFormed(r.value) && r.value.length == c.length && r.value.immutableValues == c.immutableValues
    ensures r.Ok? ==> Content(r.value) == InsertShift(Content(c), index, ConvertAll(converter, Content(range.value)))
    ensures r.Ok? && Valid(c) && DistinctUnder(range.value.runs, converter) ==> Valid(r.value)
  {
    if range.None? then Err(ArgumentNull)
    else
      var src := range.value;
      var check := CheckIndexAndCount(c.length, index, src.length);
      if check.Fail? then Err(check.error)
      else
        assert Content(src) == Flatten(src.runs);
        Ok(Shifted(c, index, src.runs, src.length, converter))
  }

  /**
    `Remove(index, count)`: the `count` values from `index` are gone, the rest moves back,
    and the freed end repeats the value that was last before the call.
  */
  function Remove<T(==)>(c: Collection<T>, index: int, count: int): (r: Result<Collection<T>>)
    requires WellFormed(c)
    ensures r.Err? <==> !(1 <= count && 0 <= index && index + count <= c.length)
    ensures r.Err? ==> Fail(r.error) == CheckIndexAndCount(c.length, index, count)
    ensures r.Ok? ==> WellFormed(r.value) && r.value.length == c.length && r.value.immutableValues == c.immutableValues
    ensures r.Ok? ==> Content(r.value) == RemoveShift(Content(c), index, count)
    ensures r.Ok? && Valid(c) ==> Valid(r.value)
  {
    var check := CheckIndexAndCount(c.length, index, count);
    if check.Fail? then Err(check.error)
    else
      RemoveRunsSpec(c.runs, c.length, index, count, c.mru);
      Ok(c.(runs := RemoveRuns(c.runs, c.length, index, count, c.mru)))
  }

  /** `Remove(index)`: one value out at `index`. */
  function RemoveOne<T(==)>(c: Collection<T>, index: int): (r: Result<Collection<T>>)
    requires WellFormed(c)
    ensures r.Err? <==> !(0 <= index < c.length)
    ensures r.Err? ==> r.error == IndexOutOfRange
    ensures r.Ok? ==> WellFormed(r.value) && r.value.length == c.length && r.value.immutableValues == c.immutableValues
    ensures r.Ok? ==> Content(r.value) == RemoveShift(Content(c), index, 1)
    ensures r.Ok? && Valid(c) ==> Valid(r.value)
  {
    Remove(c, index, 1)
  }
}
