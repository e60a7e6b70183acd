/**
 * Actions: the key chords that switch tools while held. An ActionKey names one input with a click
 * count and is ordered so that chords can live in a std::set; an ActionFacade owns the task a chord
 * starts, runs and stops, and a flag saying whether it is enabled.
 */
module Actions {
  import opened Wrappers
  import opened QtUtil

  /** ActionKey: the input, whether it is a mouse button, and the click count. */
  datatype ActionKey = ActionKey(id: Input, mouse: bool, count: nat)

  /** std::strong_ordering. */
  datatype Ordering = Less | Equal | Greater

  function Reversed(o: Ordering): Ordering
  {
    match o
    case Less => Greater
    case Equal => Equal
    case Greater => Less
  }

  /** The three-way comparison of two numbers. */
  function CompareNat(a: nat, b: nat): (o: Ordering)
    ensures (o == Less <==> a < b) && (o == Equal <==> a == b) && (o == Greater <==> a > b)
  {
    if a < b then Less else if b < a then Greater else Equal
  }

  /**
   * operator<=>: first the variant alternative, then the enum value within the same alternative,
   * then the mouse flag, then the count.
   */
  function Compare(a: ActionKey, b: ActionKey): Ordering
  {
    if Index(a.id) != Index(b.id) then
      if Index(a.id) < Index(b.id) then Less else Greater
    else
      var byValue := CompareNat(a.id.code, b.id.code);
      if byValue != Equal then byValue
      else if a.mouse != b.mouse then
        if !a.mouse then Less else Greater
      else CompareNat(a.count, b.count)
  }

  /**
   * The lexicographic order on (alternative, value, mouse flag, count) that the comparison is meant
   * to be, written as one key.
   */
  function Rank(k: ActionKey): (nat, nat, nat, nat)
  {
    (Index(k.id), k.id.code, if k.mouse then 1 else 0, k.count)
  }

  predicate RankLess(a: (nat, nat, nat, nat), b: (nat, nat, nat, nat))
  {
    a.0 < b.0 || (a.0 == b.0 && (a.1 < b.1 || (a.1 == b.1 && (a.2 < b.2 || (a.2 == b.2 && a.3 < b.3)))))
  }

  /** Compare is the lexicographic order on Rank, so it says Less, Equal and Greater exactly when that order does. */
  lemma CompareIsLexicographic(a: ActionKey, b: ActionKey)
    ensures Compare(a, b) == Less <==> RankLess(Rank(a), Rank(b))
    ensures Compare(a, b) == Greater <==> RankLess(Rank(b), Rank(a))
    ensures Compare(a, b) == Equal <==> Rank(a) == Rank(b)
  {
  }

  /** Equal exactly when all four components agree. */
  lemma CompareEqual(a: ActionKey, b: ActionKey)
    ensures Compare(a, b) == Equal <==> a == b
  {
    if Compare(a, b) == Equal {
      CompareIsLexicographic(a, b);
      assert Index(a.id) == Index(b.id) && a.id.code == b.id.code;
      assert a.id == b.id;
    }
  }

  /** Swapping the operands reverses the answer. */
  lemma CompareAntisymmetric(a: ActionKey, b: ActionKey)
    ensures Compare(b, a) == Reversed(Compare(a, b))
  {
    CompareIsLexicographic(a, b);
    CompareIsLexicographic(b, a);
  }

  /** Less is transitive, as std::set requires of its order. */
  lemma CompareTransitive(a: ActionKey, b: ActionKey, c: ActionKey)
    requires Compare(a, b) == Less && Compare(b, c) == Less
    ensures Compare(a, c) == Less
  {
    CompareIsLexicographic(a, b);
    CompareIsLexicographic(b, c);
    CompareIsLexicographic(a, c);
  }

  /** key(Qt::MouseButton, count): a mouse-button key; count is 1 unless given. */
  function MouseKey(b: nat, count: nat := 1): (k: ActionKey)
    ensures k.id == Button(b) && k.count == count
    ensures k.mouse && Index(k.id) == 1
  {
    ActionKey(Button(b), true, count)
  }

  /** key(Qt::Key, count): a keyboard key; count is 1 unless given. */
  function KeyboardKey(key: nat, count: nat := 1): (k: ActionKey)
    ensures k.id == Key(key) && k.count == count
    ensures !k.mouse && Index(k.id) == 0
  {
    ActionKey(Key(key), false, count)
  }

  /** The keys the helpers build carry a mouse flag that agrees with their alternative. */
  predicate FlagAgrees(k: ActionKey)
  {
    k.mouse <==> k.id.Button?
  }

  /** ActionData: the chords that trigger the action, whether it must be held, and the time window. */
  datatype ActionData = ActionData(keys: set<seq<ActionKey>>, holdRequired: bool, maxGapMs: int)

  /** Tool::Type, for the two tools the default actions switch to. */
  datatype Tool = Move | Eraser

  /** A call the facade makes on its task. The task's effects are outside the model; the calls are logged. */
  datatype TaskCall = Start | Execute | Stop

  /** Whether the task is running after the calls in the log, starting from a stopped task. */
  function Running(log: seq<TaskCall>): bool
  {
    if log == [] then false
    else
      match log[|log| - 1]
      case Start => true
      case Stop => false
      case Execute => Running(log[..|log| - 1])
  }

  /** The calls alternate: start only when stopped, stop and execute only when running. */
  predicate WellOrdered(log: seq<TaskCall>)
  {
    forall k | 0 <= k < |log| :: (log[k] == Start) != Running(log[..k])
  }

  /** Appending one call that fits the current state keeps the log well ordered. */
  lemma WellOrderedAppend(log: seq<TaskCall>, c: TaskCall)
    requires WellOrdered(log)
    requires (c == Start) != Running(log)
    ensures WellOrdered(log + [c])
    ensures Running(log + [c]) == (c != Stop)
  {
    var l := log + [c];
    assert l[..|l| - 1] == log;
    forall k | 0 <= k < |l| ensures (l[k] == Start) != Running(l[..k]) {
      if k < |log| {
        assert l[..k] == log[..k];
      }
    }
  }

  /** ActionFacade: the task (absent, or the tool it switches to), the chord data and the flag. */
  class ActionFacade {
    const task: Option<Tool>       // m_task; None stands for a null pointer
    const data: ActionData         // m_data
    var enabled: bool              // m_enabled
    ghost var log: seq<TaskCall>   // the calls made on m_task, in order

    /** Without a task nothing is ever called; with one, the calls alternate and end in the flag's state. */
    ghost predicate Valid()
      reads this
    {
      (task.None? ==> log == []) && WellOrdered(log) && (task.Some? ==> Running(log) == enabled)
    }

    constructor (task: Option<Tool>, data: ActionData)
      ensures Valid() && this.task == task && this.data == data && !enabled && log == []
    {
      this.task, this.data := task, data;
      enabled, log := false, [];
    }

    /** enable: nothing when enabled; otherwise the task is started once, if there is one, and the flag is set. */
    method Enable()
      requires Valid()
      modifies this
      ensures Valid() && enabled
      ensures log == if old(enabled) || task.None? then old(log) else old(log) + [Start]
    {
      if enabled {
        return;
      }
      if task.Some? {
        WellOrderedAppend(log, Start);
        log := log + [Start];
      }
      enabled := true;
    }

    /** execute: runs the task only when the facade is enabled and has one. */
    method Run()
      requires Valid()
      modifies this
      ensures Valid() && enabled == old(enabled)
      ensures log == if old(enabled) && task.Some? then old(log) + [Execute] else old(log)
    {
      if !enabled || task.None? {
        return;
      }
      WellOrderedAppend(log, Execute);
      log := log + [Execute];
    }

    /** disable: nothing when disabled; otherwise the task is stopped once, if there is one, and the flag is cleared. */
    method Disable()
      requires Valid()
      modifies this
      ensures Valid() && !enabled
      ensures log == if !old(enabled) || task.None? then old(log) else old(log) + [Stop]
    {
      if !enabled {
        return;
      }
      if task.Some? {
        WellOrderedAppend(log, Stop);
        log := log + [Stop];
      }
      enabled := false;
    }

    /** toggle: disable when enabled, enable otherwise; the flag flips. */
    method Toggle()
      requires Valid()
      modifies this
      ensures Valid() && enabled == !old(enabled)
      ensures task.Some? ==> log == old(log) + [if old(enabled) then Stop else Start]
      ensures task.None? ==> log == old(log)
    {
      if enabled {
        Disable();
      } else {
        Enable();
      }
    }
  }

  /** The chords of the move tool: Space then the left button, or the middle button alone. */
  function MoveChords(): set<seq<ActionKey>>
  {
    {[KeyboardKey(SpaceKey), MouseKey(LeftButton)], [MouseKey(MiddleButton)]}
  }

  /** The chord of the eraser: the right button. */
  function EraserChords(): set<seq<ActionKey>>
  {
    {[MouseKey(RightButton)]}
  }

  /**
   * getDefaultActions: the move and eraser actions, in that order, each disabled, to be held, with
   * maxGapMs -2 (a negative window, which selects the timed key match with its default window).
   */
  method DefaultActions() returns (r: seq<ActionFacade>)
    ensures |r| == 2 && fresh(r[0]) && fresh(r[1]) && r[0] != r[1]
    ensures r[0].Valid() && r[0].task == Some(Move) && r[0].data == ActionData(MoveChords(), true, -2)
    ensures r[1].Valid() && r[1].task == Some(Eraser) && r[1].data == ActionData(EraserChords(), true, -2)
    ensures !r[0].enabled && !r[1].enabled && r[0].log == [] && r[1].log == []
  {
    var move := new ActionFacade(Some(Move), ActionData(MoveChords(), true, -2));
    var eraser := new ActionFacade(Some(Eraser), ActionData(EraserChords(), true, -2));
    r := [move, eraser];
  }

  /** Every key of the default chords carries a mouse flag that agrees with its alternative and a count of 1. */
  lemma DefaultChordsWellFormed()
    ensures forall c: seq<ActionKey>, i: int | c in MoveChords() + EraserChords() && 0 <= i < |c| :: FlagAgrees(c[i]) && c[i].count == 1
  {
  }
}
