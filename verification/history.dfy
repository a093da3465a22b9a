/**
  The undoable wrapper's six history items. Each item's redo snapshots what its undo will
  need (the prior value, the prior window, or the values about to fall off the end or be
  removed) and then performs its mutation; its undo writes the snapshot back and clears
  it. The collection's state is passed in and returned, so redo and undo are functions.
*/
module History {
  import opened Errors
  import opened Runs
  import opened RunAlgebra
  import opened Sequences
  import opened Store

  datatype Command<!T> =
    | SetValueItem(index: int, newValue: T, oldValue: T)
    | SetRangeValueItem(start: int, end: int, newValue: T, oldRange: Option<Collection<T>>)
    | SetRangeItem(start: int, newRange: Collection<T>, converter: Option<T -> T>, oldRange: Option<Collection<T>>)
    | InsertValueItem(index: int, count: int, newValue: T, savedRange: Option<Collection<T>>)
    | InsertRangeItem(index: int, newRange: Collection<T>, converter: Option<T -> T>, savedRange: Option<Collection<T>>)
    | RemoveRangeItem(index: int, count: int, savedRange: Option<Collection<T>>)

  /** The collections a command holds are collections: its source range and its snapshot. */
  predicate Holds<T>(cmd: Command<T>) {
    match cmd
    case SetValueItem(_, _, _) => true
    case SetRangeValueItem(_, _, _, prior) => prior.Some? ==> WellFormed(prior.value)
    case SetRangeItem(_, range, _, prior) => WellFormed(range) && (prior.Some? ==> WellFormed(prior.value))
    case InsertValueItem(_, _, _, saved) => saved.Some? ==> WellFormed(saved.value)
    case InsertRangeItem(_, range, _, saved) => WellFormed(range) && (saved.Some? ==> WellFormed(saved.value))
    case RemoveRangeItem(_, _, saved) => saved.Some? ==> WellFormed(saved.value)
  }

  // ---------------------------------------------------------------------------------
  // RedoCore of each item: take the snapshot, then mutate. Each returns the mutated
  // collection and the snapshot; `Redo` puts the snapshot into the item.

  /** The point item reads the old value through the getter, so it can also fail there. */
  function RedoSetValue<T(==)>(c: Collection<T>, traits: ValueTraits<T>, index: int, v: T): (r: Result<(Collection<T>, T)>)
    requires WellFormed(c)
    ensures r.Ok? <==> Get(c, traits, index).Ok?
    ensures r.Ok? ==> 0 <= index < c.length && r.value.1 == Content(c)[index]
    ensures r.Ok? ==> WellFormed(r.value.0) && r.value.0.length == c.length && r.value.0.immutableValues == c.immutableValues
    ensures r.Ok? ==> Content(r.value.0) == Content(c)[index := v]
  {
    match Get(c, traits, index)
    case Err(e) => Err(e)
    case Ok(prior) =>
      match SetItem(c, index, v)
      case Err(e) => Err(e)
      case Ok(next) => Ok((next, prior))
  }

  function RedoSetRangeValue<T(==)>(c: Collection<T>, start: int, end: int, v: T): (r: Result<(Collection<T>, Collection<T>)>)
    requires WellFormed(c)
    ensures r.Ok? <==> 0 <= start <= end < c.length
    ensures r.Ok? ==> WellFormed(r.value.1) && Content(r.value.1) == Content(c)[start..end + 1]
    ensures r.Ok? ==> WellFormed(r.value.0) && r.value.0.length == c.length && r.value.0.immutableValues == c.immutableValues
    ensures r.Ok? ==> Content(r.value.0) == Overwrite(Content(c), start, Fill(v, end - start + 1))
  {
    match GetRange(c, start, end)
    case Err(e) => Err(e)
    case Ok(saved) =>
      match SetRangeValue(c, start, end, v)
      case Err(e) => Err(e)
      case Ok(next) => Ok((next, saved))
  }

  function RedoSetRange<T(==)>(c: Collection<T>, start: int, range: Collection<T>, conv: Option<T -> T>): (r: Result<(Collection<T>, Collection<T>)>)
    requires WellFormed(c) && WellFormed(range)
    ensures r.Ok? <==> 0 <= start && start + range.length <= c.length
    ensures r.Ok? ==> WellFormed(r.value.1) && Content(r.value.1) == Content(c)[start..start + range.length]
    ensures r.Ok? ==> WellFormed(r.value.0) && r.value.0.length == c.length && r.value.0.immutableValues == c.immutableValues
    ensures r.Ok? ==> Content(r.value.0) == Overwrite(Content(c), start, ConvertAll(conv, Content(range)))
  {
    match GetRange(c, start, start + range.length - 1)
    case Err(e) => Err(e)
    case Ok(saved) =>
      assert Content(saved) == Content(c)[start..start + range.length];
      match SetRange(c, start, Some(range), conv)
      case Err(e) => Err(e)
      case Ok(next) => Ok((next, saved))
  }

  function RedoInsertValue<T(==)>(c: Collection<T>, index: int, count: int, v: T): (r: Result<(Collection<T>, Collection<T>)>)
    requires WellFormed(c)
    ensures r.Ok? <==> 1 <= count && 0 <= index && index + count <= c.length
    ensures r.Ok? ==> WellFormed(r.value.1) && Content(r.value.1) == Content(c)[c.length - count..]
    ensures r.Ok? ==> WellFormed(r.value.0) && r.value.0.length == c.length && r.value.0.immutableValues == c.immutableValues
    ensures r.Ok? ==> Content(r.value.0) == InsertShift(Content(c), index, Fill(v, count))
  {
    match GetRange(c, c.length - count, c.length - 1)
    case Err(e) => Err(e)
    case Ok(saved) =>
      assert Content(saved) == Content(c)[c.length - count..];
      match Insert(c, index, count, v)
      case Err(e) => Err(e)
      case Ok(next) => Ok((next, saved))
  }

  function RedoInsertRange<T(==)>(c: Collection<T>, index: int, range: Collection<T>, conv: Option<T -> T>): (r: Result<(Collection<T>, Collection<T>)>)
    requires WellFormed(c) && WellFormed(range)
    ensures r.Ok? <==> 0 <= index && index + range.length <= c.length
    ensures r.Ok? ==> WellFormed(r.value.1) && Content(r.value.1) == Content(c)[c.length - range.length..]
    ensures r.Ok? ==> WellFormed(r.value.0) && r.value.0.length == c.length && r.value.0.immutableValues == c.immutableValues
    ensures r.Ok? ==> Content(r.value.0) == InsertShift(Content(c), index, ConvertAll(conv, Content(range)))
  {
    match GetRange(c, c.length - range.length, c.length - 1)
    case Err(e) => Err(e)
    case Ok(saved) =>
      assert Content(saved) == Content(c)[c.length - range.length..];
      match InsertRange(c, index, Some(range), conv)
      case Err(e) => Err(e)
      case Ok(next) => Ok((next, saved))
  }

  function RedoRemove<T(==)>(c: Collection<T>, index: int, count: int): (r: Result<(Collection<T>, Collection<T>)>)
    requires WellFormed(c)
    ensures r.Ok? <==> 1 <= count && 0 <= index && index + count <= c.length
    ensures r.Ok? ==> WellFormed(r.value.1) && Content(r.value.1) == Content(c)[index..index + count]
    ensures r.Ok? ==> WellFormed(r.value.0) && r.value.0.length == c.length && r.value.0.immutableValues == c.immutableValues
    ensures r.Ok? ==> Content(r.value.0) == RemoveShift(Content(c), index, count)
  {
    match GetRange(c, index, index + count - 1)
    case Err(e) => Err(e)
    case Ok(saved) =>
      assert Content(saved) == Content(c)[index..index + count];
      match Remove(c, index, count)
      case Err(e) => Err(e)
      case Ok(next) => Ok((next, saved))
  }

  /**
    `RedoCore`: every item but the point item succeeds exactly when its arguments are
    acceptable; a successful redo applies the command's effect to the content and
    snapshots what the undo needs.
  */
  function Redo<T(==)>(c: Collection<T>, traits: ValueTraits<T>, cmd: Command<T>): (r: Result<(Collection<T>, Command<T>)>)
    requires WellFormed(c) && Holds(cmd)
    ensures r.Ok? ==> WellFormed(r.value.0) && r.value.0.length == c.length && Holds(r.value.1)
    ensures r.Ok? ==> r.value.0.immutableValues == c.immutableValues
  {
    match cmd
    case SetValueItem(index, v, _) =>
      (match RedoSetValue(c, traits, index, v)
       case Err(e) => Err(e)
       case Ok((next, prior)) => Ok((next, SetValueItem(index, v, prior))))
    case SetRangeValueItem(start, end, v, _) =>
      (match RedoSetRangeValue(c, start, end, v)
       case Err(e) => Err(e)
       case Ok((next, saved)) => Ok((next, SetRangeValueItem(start, end, v, Some(saved)))))
    case SetRangeItem(start, range, conv, _) =>
      (match RedoSetRange(c, start, range, conv)
       case Err(e) => Err(e)
       case Ok((next, saved)) => Ok((next, SetRangeItem(start, range, conv, Some(saved)))))
    case InsertValueItem(index, count, v, _) =>
      (match RedoInsertValue(c, index, count, v)
       case Err(e) => Err(e)
       case Ok((next, saved)) => Ok((next, InsertValueItem(index, count, v, Some(saved)))))
    case InsertRangeItem(index, range, conv, _) =>
      (match RedoInsertRange(c, index, range, conv)
       case Err(e) => Err(e)
       case Ok((next, saved)) => Ok((next, InsertRangeItem(index, range, conv, Some(saved)))))
    case RemoveRangeItem(index, count, _) =>
      (match RedoRemove(c, index, count)
       case Err(e) => Err(e)
       case Ok((next, saved)) => Ok((next, RemoveRangeItem(index, count, Some(saved)))))
  }

  // ---------------------------------------------------------------------------------
  // The undoable collection's mutators: validate as the plain collection would, then
  // record the item and execute it.

  /** The argument check each mutator makes before it creates its item; the setter makes none. */
  function Validate<T>(length: int, cmd: Command<T>): Outcome {
    match cmd
    case SetValueItem(_, _, _) => Pass
    case SetRangeValueItem(start, end, _, _) => CheckRangeIndexes(length, start, end)
    case SetRangeItem(start, range, _, _) => CheckRangeIndexes(length, start, start + range.length - 1)
    case InsertValueItem(index, count, _, _) => CheckIndexAndCount(length, index, count)
    case InsertRangeItem(index, range, _, _) => CheckIndexAndCount(length, index, range.length)
    case RemoveRangeItem(index, count, _) => CheckIndexAndCount(length, index, count)
  }

  /**
    A mutator of the undoable collection: a request its check refuses fails with the
    check's exception; any other request runs the item's redo, which then cannot fail
    (the setter aside, whose getter may refuse to hand out the old value).
  */
  function Execute<T(==)>(c: Collection<T>, traits: ValueTraits<T>, cmd: Command<T>): (r: Result<(Collection<T>, Command<T>)>)
    requires WellFormed(c) && Holds(cmd)
    ensures Validate(c.length, cmd).Fail? ==> r.Err? && Fail(r.error) == Validate(c.length, cmd)
    ensures Validate(c.length, cmd).Pass? && !cmd.SetValueItem? ==> r.Ok?
    ensures r.Ok? ==> r == Redo(c, traits, cmd)
  {
    match Validate(c.length, cmd)
    case Fail(e) => Err(e)
    case Pass => Redo(c, traits, cmd)
  }

  // ---------------------------------------------------------------------------------
  // UndoCore of each item: write the snapshot back. `Undo` then clears it from the item.

  /** The point item writes the old value back through the setter. */
  function UndoSetValue<T(==)>(c: Collection<T>, index: int, prior: T): (r: Result<Collection<T>>)
    requires WellFormed(c)
    ensures r.Ok? <==> 0 <= index < c.length
    ensures r.Ok? ==> WellFormed(r.value) && r.value.length == c.length && r.value.immutableValues == c.immutableValues
    ensures r.Ok? ==> Content(r.value) == Content(c)[index := prior]
  {
    SetItem(c, index, prior)
  }

  /** Both window items copy the saved window back over the same place. */
  function UndoSetRange<T(==)>(c: Collection<T>, start: int, prior: Option<Collection<T>>): (r: Result<Collection<T>>)
    requires WellFormed(c) && (prior.Some? ==> WellFormed(prior.value))
    ensures r.Ok? <==> prior.Some? && 0 <= start && start + prior.value.length <= c.length
    ensures r.Ok? ==> prior.Some? && 0 <= start && start + prior.value.length <= c.length
    ensures r.Ok? ==> WellFormed(r.value) && r.value.length == c.length && r.value.immutableValues == c.immutableValues
    ensures r.Ok? ==> Content(r.value) == Overwrite(Content(c), start, Content(prior.value))
  {
    SetRange(c, start, prior, None)
  }

  /** Both insertion items remove what was inserted, then write the saved tail back at the end. */
  function UndoInsert<T(==)>(c: Collection<T>, index: int, count: int, saved: Option<Collection<T>>): (r: Result<Collection<T>>)
    requires WellFormed(c) && (saved.Some? ==> WellFormed(saved.value))
    ensures r.Ok? <==> saved.Some? && 1 <= count && 0 <= index && index + count <= c.length && saved.value.length <= count
    ensures r.Ok? ==> saved.Some? && 1 <= count && 0 <= index && index + count <= c.length && saved.value.length <= count
    ensures r.Ok? ==> WellFormed(r.value) && r.value.length == c.length && r.value.immutableValues == c.immutableValues
    ensures r.Ok? ==>
      Content(r.value) == Overwrite(RemoveShift(Content(c), index, count), c.length - count, Content(saved.value))
  {
    match Remove(c, index, count)
    case Err(e) => Err(e)
    case Ok(removed) => SetRange(removed, removed.length - count, saved, None)
  }

  /** The removal item inserts the removed values back where they were. */
  function UndoRemove<T(==)>(c: Collection<T>, index: int, saved: Option<Collection<T>>): (r: Result<Collection<T>>)
    requires WellFormed(c) && (saved.Some? ==> WellFormed(saved.value))
    ensures r.Ok? <==> saved.Some? && 0 <= index && index + saved.value.length <= c.length
    ensures r.Ok? ==> saved.Some? && 0 <= index && index + saved.value.length <= c.length
    ensures r.Ok? ==> WellFormed(r.value) && r.value.length == c.length && r.value.immutableValues == c.immutableValues
    ensures r.Ok? ==> Content(r.value) == InsertShift(Content(c), index, Content(saved.value))
  {
    InsertRange(c, index, saved, None)
  }

  /** `UndoCore` of every item, followed by dropping the snapshot it used. */
  function Undo<T(==)>(c: Collection<T>, cmd: Command<T>): (r: Result<(Collection<T>, Command<T>)>)
    requires WellFormed(c) && Holds(cmd)
    ensures r.Ok? ==> WellFormed(r.value.0) && r.value.0.length == c.length && Holds(r.value.1)
    ensures r.Ok? ==> r.value.0.immutableValues == c.immutableValues
  {
    match cmd
    case SetValueItem(index, _, prior) =>
      (match UndoSetValue(c, index, prior)
       case Err(e) => Err(e)
       case Ok(next) => Ok((next, cmd)))
    case SetRangeValueItem(start, end, v, prior) =>
      (match UndoSetRange(c, start, prior)
       case Err(e) => Err(e)
       case Ok(next) => Ok((next, SetRangeValueItem(start, end, v, None))))
    case SetRangeItem(start, range, conv, prior) =>
      (match UndoSetRange(c, start, prior)
       case Err(e) => Err(e)
       case Ok(next) => Ok((next, SetRangeItem(start, range, conv, None))))
    case InsertValueItem(index, count, v, saved) =>
      (match UndoInsert(c, index, count, saved)
       case Err(e) => Err(e)
       case Ok(next) => Ok((next, InsertValueItem(index, count, v, None))))
    case InsertRangeItem(index, range, conv, saved) =>
      (match UndoInsert(c, index, range.length, saved)
       case Err(e) => Err(e)
       case Ok(next) => Ok((next, InsertRangeItem(index, range, conv, None))))
    case RemoveRangeItem(index, count, saved) =>
      (match UndoRemove(c, index, saved)
       case Err(e) => Err(e)
       case Ok(next) => Ok((next, RemoveRangeItem(index, count, None))))
  }

  // ---------------------------------------------------------------------------------
  // Undo after redo restores the content, item by item.

  lemma {:induction false} SetValueRestored<T>(c: Collection<T>, traits: ValueTraits<T>, index: int, v: T)
    requires WellFormed(c)
    ensures var r := RedoSetValue(c, traits, index, v);
      r.Ok? ==> var u := UndoSetValue(r.value.0, index, r.value.1); u.Ok? && Content(u.value) == Content(c)
  {
    var r := RedoSetValue(c, traits, index, v);
    if r.Ok? {
      var s := Content(c);
      assert s[index := v][index := s[index]] == s;
    }
  }

  lemma {:induction false} SetRangeValueRestored<T>(c: Collection<T>, start: int, end: int, v: T)
    requires WellFormed(c)
    ensures var r := RedoSetRangeValue(c, start, end, v);
      r.Ok? ==> var u := UndoSetRange(r.value.0, start, Some(r.value.1)); u.Ok? && Content(u.value) == Content(c)
  {
    var r := RedoSetRangeValue(c, start, end, v);
    if r.Ok? {
      OverwriteUndone(Content(c), start, Fill(v, end - start + 1));
    }
  }

  lemma {:induction false} SetRangeRestored<T>(c: Collection<T>, start: int, range: Collection<T>, conv: Option<T -> T>)
    requires WellFormed(c) && WellFormed(range)
    ensures var r := RedoSetRange(c, start, range, conv);
      r.Ok? ==> var u := UndoSetRange(r.value.0, start, Some(r.value.1)); u.Ok? && Content(u.value) == Content(c)
  {
    var r := RedoSetRange(c, start, range, conv);
    if r.Ok? {
      OverwriteUndone(Content(c), start, ConvertAll(conv, Content(range)));
    }
  }

  /** Undoing an insertion of `block` with the saved tail gives back the content before it. */
  lemma InsertUndoneOn<T>(c: Collection<T>, next: Collection<T>, saved: Collection<T>, index: int, count: int, block: seq<T>)
    requires WellFormed(c) && WellFormed(next) && WellFormed(saved)
    requires count == |block| && 1 <= count && 0 <= index && index + count <= c.length && next.length == c.length
    requires Content(next) == InsertShift(Content(c), index, block)
    requires Content(saved) == Content(c)[c.length - count..]
    ensures var u := UndoInsert(next, index, count, Some(saved)); u.Ok? && Content(u.value) == Content(c)
  {
    var s := Content(c);
    InsertUndone(s, index, block);
    assert saved.length == count;
    var u := UndoInsert(next, index, count, Some(saved));
    assert u.Ok?;
    assert Content(u.value) == Overwrite(RemoveShift(InsertShift(s, index, block), index, |block|), |s| - |block|, s[|s| - |block|..]);
  }

  lemma {:induction false} InsertValueRestored<T>(c: Collection<T>, index: int, count: int, v: T)
    requires WellFormed(c)
    ensures var r := RedoInsertValue(c, index, count, v);
      r.Ok? ==> var u := UndoInsert(r.value.0, index, count, Some(r.value.1)); u.Ok? && Content(u.value) == Content(c)
  {
    var r := RedoInsertValue(c, index, count, v);
    if r.Ok? {
      InsertUndoneOn(c, r.value.0, r.value.1, index, count, Fill(v, count));
    }
  }

  lemma {:induction false} InsertRangeRestored<T>(c: Collection<T>, index: int, range: Collection<T>, conv: Option<T -> T>)
    requires WellFormed(c) && WellFormed(range)
    ensures var r := RedoInsertRange(c, index, range, conv);
      r.Ok? ==> var u := UndoInsert(r.value.0, index, range.length, Some(r.value.1)); u.Ok? && Content(u.value) == Content(c)
  {
    var r := RedoInsertRange(c, index, range, conv);
    if r.Ok? {
      InsertUndoneOn(c, r.value.0, r.value.1, index, range.length, ConvertAll(conv, Content(range)));
    }
  }

  lemma {:induction false} RemoveRestored<T>(c: Collection<T>, index: int, count: int)
    requires WellFormed(c)
    ensures var r := RedoRemove(c, index, count);
      r.Ok? ==> var u := UndoRemove(r.value.0, index, Some(r.value.1)); u.Ok? && Content(u.value) == Content(c)
  {
    var r := RedoRemove(c, index, count);
    if r.Ok? {
      RemoveUndone(Content(c), index, count);
    }
  }

  /** Undoing a successful redo brings back the content the item was redone on. */
  lemma {:induction false} UndoAfterRedo<T>(c: Collection<T>, traits: ValueTraits<T>, cmd: Command<T>)
    requires WellFormed(c) && Holds(cmd)
    ensures var r := Redo(c, traits, cmd);
      r.Ok? ==> var u := Undo(r.value.0, r.value.1); u.Ok? && Content(u.value.0) == Content(c)
  {
    match cmd
    case SetValueItem(index, v, _) => SetValueRestored(c, traits, index, v);
    case SetRangeValueItem(start, end, v, _) => SetRangeValueRestored(c, start, end, v);
    case SetRangeItem(start, range, conv, _) => SetRangeRestored(c, start, range, conv);
    case InsertValueItem(index, count, v, _) => InsertValueRestored(c, index, count, v);
    case InsertRangeItem(index, range, conv, _) => InsertRangeRestored(c, index, range, conv);
    case RemoveRangeItem(index, count, _) => RemoveRestored(c, index, count);
  }

  // ---------------------------------------------------------------------------------
  // A redo depends on the content alone, not on how the runs happen to be split.

  lemma SetValueByContent<T>(c: Collection<T>, d: Collection<T>, traits: ValueTraits<T>, index: int, v: T)
    requires WellFormed(c) && WellFormed(d) && Content(c) == Content(d) && c.immutableValues == d.immutableValues
    ensures var r, q := RedoSetValue(c, traits, index, v), RedoSetValue(d, traits, index, v);
      r.Ok? == q.Ok? && (r.Ok? ==> Content(r.value.0) == Content(q.value.0))
  {
  }

  lemma SetRangeValueByContent<T>(c: Collection<T>, d: Collection<T>, start: int, end: int, v: T)
    requires WellFormed(c) && WellFormed(d) && Content(c) == Content(d)
    ensures var r, q := RedoSetRangeValue(c, start, end, v), RedoSetRangeValue(d, start, end, v);
      r.Ok? == q.Ok? && (r.Ok? ==> Content(r.value.0) == Content(q.value.0))
  {
  }

  lemma SetRangeByContent<T>(c: Collection<T>, d: Collection<T>, start: int, range: Collection<T>, conv: Option<T -> T>)
    requires WellFormed(c) && WellFormed(d) && WellFormed(range) && Content(c) == Content(d)
    ensures var r, q := RedoSetRange(c, start, range, conv), RedoSetRange(d, start, range, conv);
      r.Ok? == q.Ok? && (r.Ok? ==> Content(r.value.0) == Content(q.value.0))
  {
  }

  lemma InsertValueByContent<T>(c: Collection<T>, d: Collection<T>, index: int, count: int, v: T)
    requires WellFormed(c) && WellFormed(d) && Content(c) == Content(d)
    ensures var r, q := RedoInsertValue(c, index, count, v), RedoInsertValue(d, index, count, v);
      r.Ok? == q.Ok? && (r.Ok? ==> Content(r.value.0) == Content(q.value.0))
  {
  }

  lemma InsertRangeByContent<T>(c: Collection<T>, d: Collection<T>, index: int, range: Collection<T>, conv: Option<T -> T>)
    requires WellFormed(c) && WellFormed(d) && WellFormed(range) && Content(c) == Content(d)
    ensures var r, q := RedoInsertRange(c, index, range, conv), RedoInsertRange(d, index, range, conv);
      r.Ok? == q.Ok? && (r.Ok? ==> Content(r.value.0) == Content(q.value.0))
  {
  }

  lemma RemoveByContent<T>(c: Collection<T>, d: Collection<T>, index: int, count: int)
    requires WellFormed(c) && WellFormed(d) && Content(c) == Content(d)
    ensures var r, q := RedoRemove(c, index, count), RedoRemove(d, index, count);
      r.Ok? == q.Ok? && (r.Ok? ==> Content(r.value.0) == Content(q.value.0))
  {
  }

  lemma {:induction false} SetValueAgain<T>(c: Collection<T>, traits: ValueTraits<T>, index: int, v: T, prior: T)
    requires WellFormed(c)
    ensures var r := Redo(c, traits, SetValueItem(index, v, prior));
      r.Ok? ==> var u := Undo(r.value.0, r.value.1);
        u.Ok? && var again := Redo(u.value.0, traits, u.value.1);
        again.Ok? && Content(again.value.0) == Content(r.value.0)
  {
    UndoAfterRedo(c, traits, SetValueItem(index, v, prior));
    var r := Redo(c, traits, SetValueItem(index, v, prior));
    if r.Ok? {
      var d := Undo(r.value.0, r.value.1).value.0;
      SetValueByContent(c, d, traits, index, v);
    }
  }

  lemma {:induction false} SetRangeValueAgain<T>(c: Collection<T>, traits: ValueTraits<T>, start: int, end: int, v: T, prior: Option<Collection<T>>)
    requires WellFormed(c) && Holds(SetRangeValueItem(start, end, v, prior))
    ensures var r := Redo(c, traits, SetRangeValueItem(start, end, v, prior));
      r.Ok? ==> var u := Undo(r.value.0, r.value.1);
        u.Ok? && var again := Redo(u.value.0, traits, u.value.1);
        again.Ok? && Content(again.value.0) == Content(r.value.0)
  {
    UndoAfterRedo(c, traits, SetRangeValueItem(start, end, v, prior));
    var r := Redo(c, traits, SetRangeValueItem(start, end, v, prior));
    if r.Ok? {
      var d := Undo(r.value.0, r.value.1).value.0;
      SetRangeValueByContent(c, d, start, end, v);
    }
  }

  lemma {:induction false} SetRangeAgain<T>(c: Collection<T>, traits: ValueTraits<T>, start: int, range: Collection<T>, conv: Option<T -> T>, prior: Option<Collection<T>>)
    requires WellFormed(c) && Holds(SetRangeItem(start, range, conv, prior))
    ensures var r := Redo(c, traits, SetRangeItem(start, range, conv, prior));
      r.Ok? ==> var u := Undo(r.value.0, r.value.1);
        u.Ok? && var again := Redo(u.value.0, traits, u.value.1);
        again.Ok? && Content(again.value.0) == Content(r.value.0)
  {
    UndoAfterRedo(c, traits, SetRangeItem(start, range, conv, prior));
    var r := Redo(c, traits, SetRangeItem(start, range, conv, prior));
    if r.Ok? {
      var d := Undo(r.value.0, r.value.1).value.0;
      SetRangeByContent(c, d, start, range, conv);
    }
  }

  lemma {:induction false} InsertValueAgain<T>(c: Collection<T>, traits: ValueTraits<T>, index: int, count: int, v: T, saved: Option<Collection<T>>)
    requires WellFormed(c) && Holds(InsertValueItem(index, count, v, saved))
    ensures var r := Redo(c, traits, InsertValueItem(index, count, v, saved));
      r.Ok? ==> var u := Undo(r.value.0, r.value.1);
        u.Ok? && var again := Redo(u.value.0, traits, u.value.1);
        again.Ok? && Content(again.value.0) == Content(r.value.0)
  {
    UndoAfterRedo(c, traits, InsertValueItem(index, count, v, saved));
    var r := Redo(c, traits, InsertValueItem(index, count, v, saved));
    if r.Ok? {
      var d := Undo(r.value.0, r.value.1).value.0;
      InsertValueByContent(c, d, index, count, v);
    }
  }

  lemma {:induction false} InsertRangeAgain<T>(c: Collection<T>, traits: ValueTraits<T>, index: int, range: Collection<T>, conv: Option<T -> T>, saved: Option<Collection<T>>)
    requires WellFormed(c) && Holds(InsertRangeItem(index, range, conv, saved))
    ensures var r := Redo(c, traits, InsertRangeItem(index, range, conv, saved));
      r.Ok? ==> var u := Undo(r.value.0, r.value.1);
        u.Ok? && var again := Redo(u.value.0, traits, u.value.1);
        again.Ok? && Content(again.value.0) == Content(r.value.0)
  {
    UndoAfterRedo(c, traits, InsertRangeItem(index, range, conv, saved));
    var r := Redo(c, traits, InsertRangeItem(index, range, conv, saved));
    if r.Ok? {
      var d := Undo(r.value.0, r.value.1).value.0;
      InsertRangeByContent(c, d, index, range, conv);
    }
  }

  lemma {:induction false} RemoveAgain<T>(c: Collection<T>, traits: ValueTraits<T>, index: int, count: int, saved: Option<Collection<T>>)
    requires WellFormed(c) && Holds(RemoveRangeItem(index, count, saved))
    ensures var r := Redo(c, traits, RemoveRangeItem(index, count, saved));
      r.Ok? ==> var u := Undo(r.value.0, r.value.1);
        u.Ok? && var again := Redo(u.value.0, traits, u.value.1);
        again.Ok? && Content(again.value.0) == Content(r.value.0)
  {
    UndoAfterRedo(c, traits, RemoveRangeItem(index, count, saved));
    var r := Redo(c, traits, RemoveRangeItem(index, count, saved));
    if r.Ok? {
      var d := Undo(r.value.0, r.value.1).value.0;
      RemoveByContent(c, d, index, count);
    }
  }

  /** Redoing an undone item does again what its first redo did. */
  lemma {:induction false} RedoAfterUndo<T>(c: Collection<T>, traits: ValueTraits<T>, cmd: Command<T>)
    requires WellFormed(c) && Holds(cmd)
    ensures var r := Redo(c, traits, cmd);
      r.Ok? ==> var u := Undo(r.value.0, r.value.1);
        u.Ok? && var again := Redo(u.value.0, traits, u.value.1);
        again.Ok? && Content(again.value.0) == Content(r.value.0)
  {
    match cmd
    case SetValueItem(index, v, prior) => SetValueAgain(c, traits, index, v, prior);
    case SetRangeValueItem(start, end, v, prior) => SetRangeValueAgain(c, traits, start, end, v, prior);
    case SetRangeItem(start, range, conv, prior) => SetRangeAgain(c, traits, start, range, conv, prior);
    case InsertValueItem(index, count, v, saved) => InsertValueAgain(c, traits, index, count, v, saved);
    case InsertRangeItem(index, range, conv, saved) => InsertRangeAgain(c, traits, index, range, conv, saved);
    case RemoveRangeItem(index, count, saved) => RemoveAgain(c, traits, index, count, saved);
  }
}
