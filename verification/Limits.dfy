/** The capacity rules shared by Queue and Deque: the option check and the three limit trackers.
    `Tracker` is the value a tracker holds; `LimitTracker` is the object the containers update in place. */
module Limits {

  // What cap() reports when there is no limit.
  const MAX_INT: int := 0x7fff_ffff_ffff_ffff

  datatype LimitError = Full | NoCredit

  datatype AddResult = Added(next: Tracker) | Refused(why: LimitError)

  datatype Tracker =
    | NoLimit(length: int)
    | HardLimit(capacity: int, length: int)
    | Burst(softQuota: int, hardLimit: int, length: int, credit: real)
  {
    function Cap(): int {
      match this
      case NoLimit(_) => MAX_INT
      case HardLimit(c, _) => c
      case Burst(q, _, _, _) => q
    }

    /** Counts one item in. A slot below the capacity is free: it is never refused and costs nothing. At the
        capacity only a burst tracker still accepts, and it pays with a unit of credit for a unit of quota. */
    function Add(): (r: AddResult)
      ensures Valid() && r.Added? ==> r.next.Valid() && r.next.length == length + 1
      ensures Valid() && length < Cap() ==> r == Added(this.(length := length + 1))
      ensures Valid() && r.Added? && Burst? ==>
                r.next.Burst? && r.next.Budget() == Budget() && r.next.hardLimit == hardLimit
      ensures Valid() ==>
                (r == Refused(Full) <==> (HardLimit? && length == capacity) || (Burst? && length == hardLimit))
      ensures Valid() ==> (r == Refused(NoCredit) <==> Burst? && length == softQuota < hardLimit && credit < 1.0)
      ensures Valid() && r.Added? && r.next.Cap() != Cap() ==> length == Cap() && r.next.length == r.next.Cap()
    {
      match this
      case NoLimit(n) => Added(NoLimit(n + 1))
      case HardLimit(c, n) => if n >= c then Refused(Full) else Added(HardLimit(c, n + 1))
      case Burst(q, h, n, credit) =>
        if n < q then Added(Burst(q, h, n + 1, credit))
        else if n == h then Refused(Full)
        else if credit < 1.0 then Refused(NoCredit)
        else Added(Burst(n + 1, h, n + 1, credit - 1.0))
    }

    /** Counts one item out: the limits stay in order, a slot is free afterwards, a full container keeps its
        capacity, and quota and credit together are within the hard limit from here on. */
    function Remove(): (t: Tracker)
      requires Burst? ==> softQuota >= 1
      ensures Valid() && length > 0 ==> t.Valid() && t.length == length - 1
      ensures Valid() && length > 0 && !NoLimit? ==> t.length < t.Cap()
      ensures Valid() && length > 0 && Burst? ==>
                t.Burst? && t.hardLimit == hardLimit && t.Budget() <= hardLimit as real
      ensures Valid() && length > 0 && length == Cap() ==> t.Cap() == Cap()
      ensures NoLimit? ==> t == NoLimit(if length == 0 then 0 else length - 1)
      ensures HardLimit? ==> t == HardLimit(capacity, if length == 0 then 0 else length - 1)
    {
      match this
      case NoLimit(n) => if n == 0 then this else NoLimit(n - 1)
      case HardLimit(c, n) => if n == 0 then this else HardLimit(c, n - 1)
      case Burst(q, h, n, credit) =>
        if n - 1 >= q then Burst(q, h, n - 1, credit)
        else
          var q' := if q > 1 && n - 1 < q / 2 then q - 1 else q;
          RatioNonNegative(q' - (n - 1), q');
          Burst(q', h, n - 1, Capped(credit + (q' - (n - 1)) as real / q' as real, (h - q') as real))
    }

    /** Every reachable tracker value. */
    predicate Valid() {
      match this
      case NoLimit(n) => 0 <= n
      case HardLimit(c, n) => 0 <= n <= c && 1 <= c
      case Burst(q, h, n, credit) => 0 <= n <= q <= h && 1 <= q && 0.0 <= credit
    }

    /** What a burst tracker trades: a unit of credit for a unit of quota. */
    function Budget(): real
      requires Burst?
    {
      credit + softQuota as real
    }
  }

  /** What a removal gives a burst tracker. At or above the quota it has one item less and nothing else changes. Below,
      the quota falls by one exactly when it is above 1 and less than half of it is in use, and the credit grows by the
      unused share of the quota, up to what the hard limit leaves beside it: it shrinks to that cap only. */
  lemma {:induction false} RemovalGivesCredit(t: Tracker)
    requires t.Burst? && t.softQuota >= 1
    ensures var (n, r) := (t.length - 1, t.Remove());
            && r.Burst? && r.length == n && r.hardLimit == t.hardLimit
            && (n >= t.softQuota ==> r == Burst(t.softQuota, t.hardLimit, n, t.credit))
            && (n < t.softQuota ==>
                  var cap := (t.hardLimit - r.softQuota) as real;
                  && r.softQuota == (if t.softQuota > 1 && n < t.softQuota / 2 then t.softQuota - 1 else t.softQuota)
                  && r.credit <= cap && (r.credit >= t.credit || r.credit == cap)
                  && (r.credit == cap || (r.credit - t.credit) * r.softQuota as real == (r.softQuota - n) as real))
  {
    var (n, r) := (t.length - 1, t.Remove());
    if n < t.softQuota {
      RatioNonNegative(r.softQuota - n, r.softQuota);
      RatioTimes(r.softQuota - n, r.softQuota);
    }
  }

  lemma {:induction false} RatioTimes(a: int, b: int)
    requires b >= 1
    ensures (a as real / b as real) * b as real == a as real
  {
  }

  lemma RatioNonNegative(a: int, b: int)
    requires a >= 0 && b >= 1
    ensures a as real / b as real >= 0.0
  {
  }

  function Capped(x: real, limit: real): real {
    if x > limit then limit else x
  }

  // ---------------------------------------------------------------- options

  datatype Options = Options(hardLimit: int, softQuota: int, burstCredit: real)

  datatype ValidateResult = Ok(opts: Options) | BadHardLimit | BadBurstCredit

  /** Checks the options and fills in the defaults. It accepts exactly a positive hard limit that is not below
      the quota, with credit that is not negative, and whatever it accepts starts a valid tracker. */
  function Validate(opts: Options): (r: ValidateResult)
    ensures r.Ok? <==> opts.hardLimit > 0 && opts.softQuota <= opts.hardLimit && opts.burstCredit >= 0.0
    ensures r.Ok? ==> NewTracker(r.opts).Valid() && r.opts.burstCredit > 0.0
  {
    if opts.hardLimit <= 0 || opts.hardLimit < opts.softQuota then BadHardLimit
    else if opts.burstCredit < 0.0 then BadBurstCredit
    else
      var quota := if opts.softQuota <= 0 then opts.hardLimit else opts.softQuota;
      var credit := if opts.burstCredit == 0.0 then quota as real else opts.burstCredit;
      Ok(Options(opts.hardLimit, quota, credit))
  }

  /** The given options are kept, and the ones that are left out stand for the hard limit and for the quota; checking
      a second time changes nothing. */
  lemma {:induction false} ValidateKeeps(opts: Options)
    ensures Validate(opts) == BadHardLimit <==> opts.hardLimit <= 0 || opts.softQuota > opts.hardLimit
    ensures var r := Validate(opts);
            r.Ok? ==>
              && r.opts.hardLimit == opts.hardLimit && Validate(r.opts) == r
              && r.opts.softQuota == (if opts.softQuota > 0 then opts.softQuota else opts.hardLimit)
              && (opts.burstCredit > 0.0 ==> r.opts.burstCredit == opts.burstCredit)
              && (opts.burstCredit == 0.0 ==> r.opts.burstCredit == r.opts.softQuota as real)
  {
  }

  function NewTracker(opts: Options): Tracker {
    Burst(opts.softQuota, opts.hardLimit, 0, opts.burstCredit)
  }

  // ---------------------------------------------------------------- the object

  datatype Kind = KindNone | KindHard | KindBurst

  /** One class for the three implementations of the tracker interface; `kind` says which one it is.
      A hard-limit tracker keeps its capacity in `hardLimit`. */
  class LimitTracker {
    const kind: Kind
    const hardLimit: int
    var softQuota: int
    var length: int
    var credit: real

    function Abs(): Tracker
      reads this
    {
      match kind
      case KindNone => NoLimit(length)
      case KindHard => HardLimit(hardLimit, length)
      case KindBurst => Burst(softQuota, hardLimit, length, credit)
    }

    constructor Unlimited()
      ensures Abs() == NoLimit(0)
    {
      kind, hardLimit, softQuota, length, credit := KindNone, 0, 0, 0, 0.0;
    }

    constructor Hard(capacity: int)
      ensures Abs() == HardLimit(capacity, 0)
    {
      kind, hardLimit, softQuota, length, credit := KindHard, capacity, 0, 0, 0.0;
    }

    constructor FromOptions(opts: Options)
      ensures Abs() == NewTracker(opts)
    {
      kind, hardLimit, softQuota, length, credit := KindBurst, opts.hardLimit, opts.softQuota, 0, opts.burstCredit;
    }

    method Add() returns (r: AddResult)
      modifies this
      ensures r == old(Abs()).Add()
      ensures Abs() == if r.Added? then r.next else old(Abs())
    {
      match kind {
        case KindNone =>
          length := length + 1;
        case KindHard =>
          if length >= hardLimit {
            return Refused(Full);
          }
          length := length + 1;
        case KindBurst =>
          if length >= softQuota {
            if length == hardLimit {
              return Refused(Full);
            } else if credit < 1.0 {
              return Refused(NoCredit);
            }
            credit := credit - 1.0;
            softQuota := length + 1;
          }
          length := length + 1;
      }
      r := Added(Abs());
    }

    method Remove()
      requires kind == KindBurst ==> softQuota >= 1
      modifies this
      ensures Abs() == old(Abs()).Remove()
    {
      match kind
      case KindNone =>
        if length == 0 {
          return;
        }
        length := length - 1;
      case KindHard =>
        if length == 0 {
          return;
        }
        length := length - 1;
      case KindBurst =>
        length := length - 1;
        if length < softQuota {
          if softQuota > 1 && length < softQuota / 2 {
            softQuota := softQuota - 1;
          }
          credit := credit + (softQuota - length) as real / softQuota as real;
          var lenCap := (hardLimit - softQuota) as real;
          if credit > lenCap {
            credit := lenCap;
          }
        }
    }
  }

  // ---------------------------------------------------------------- whole runs

  datatype Op = AddOp | RemoveOp

  /** A run of calls as the containers make them: remove is only called with an item present. */
  function Run(t: Tracker, ops: seq<Op>): Tracker
    requires t.Valid()
    ensures Run(t, ops).Valid()
    decreases |ops|
  {
    if ops == [] then t else
    (match ops[0]
     case AddOp =>
       Run(if t.Add().Added? then t.Add().next else t, ops[1..])
     case RemoveOp =>
       if t.length == 0 then Run(t, ops[1..]) else
       Run(t.Remove(), ops[1..]))
  }

  function Adds(k: nat): seq<Op> {
    seq(k, _ => AddOp)
  }

  lemma {:induction false} AddsFirst(t: Tracker, k: nat)
    requires t.Valid() && k > 0
    ensures var r := t.Add(); Run(t, Adds(k)) == Run(if r.Added? then r.next else t, Adds(k - 1))
  {
    assert Adds(k)[1..] == Adds(k - 1);
  }

  /** All of k adds in a row are accepted exactly when the hard limit has room for them and the credit pays for those
      beyond the quota. */
  lemma {:induction false} BurstCapacity(t: Tracker, k: nat)
    requires t.Valid() && t.Burst?
    ensures Run(t, Adds(k)).length == t.length + k <==>
              t.length + k <= t.hardLimit && (t.length + k - t.softQuota) as real <= t.credit
    ensures Run(t, Adds(k)).Burst? && t.length <= Run(t, Adds(k)).length <= t.length + k
    decreases k
  {
    if k > 0 {
      AddsFirst(t, k);
      BurstCapacity(if t.Add().Added? then t.Add().next else t, k - 1);
    }
  }

  /** How many calls in the run took an item out. */
  function Removals(t: Tracker, ops: seq<Op>): nat
    requires t.Valid()
    decreases |ops|
  {
    if ops == [] then 0 else
    (match ops[0]
     case AddOp =>
       Removals(if t.Add().Added? then t.Add().next else t, ops[1..])
     case RemoveOp =>
       if t.length == 0 then Removals(t, ops[1..]) else
       1 + Removals(t.Remove(), ops[1..]))
  }

  /** Over a run the budget changes only by removals: without one it is what it was at the start, and from
      the first removal on it never exceeds the hard limit again. */
  lemma {:induction false} BudgetOverRun(t: Tracker, ops: seq<Op>)
    requires t.Valid() && t.Burst?
    ensures var t' := Run(t, ops);
            && t'.Burst? && t'.hardLimit == t.hardLimit
            && (Removals(t, ops) == 0 ==> t'.Budget() == t.Budget())
            && (Removals(t, ops) > 0 || t.Budget() <= t.hardLimit as real ==> t'.Budget() <= t.hardLimit as real)
    decreases |ops|
  {
    if ops != [] {
      match ops[0] {
        case AddOp =>
          BudgetOverRun(if t.Add().Added? then t.Add().next else t, ops[1..]);
        case RemoveOp =>
          if t.length == 0 {
            BudgetOverRun(t, ops[1..]);
          } else {
            BudgetOverRun(t.Remove(), ops[1..]);
          }
      }
    }
  }

  /** From any accepted options, whatever the run: 0 <= length <= quota <= hard limit, quota >= 1, credit >= 0,
      and quota and credit together stay within the hard limit once anything has been removed. */
  lemma CreditAccounting(opts: Options, ops: seq<Op>)
    requires Validate(opts).Ok?
    ensures var start := NewTracker(Validate(opts).opts);
            var end := Run(start, ops);
            && start == Burst(Validate(opts).opts.softQuota, opts.hardLimit, 0, Validate(opts).opts.burstCredit)
            && end.Burst? && end.hardLimit == opts.hardLimit
            && 0 <= end.length <= end.softQuota <= end.hardLimit
            && 1 <= end.softQuota && 0.0 <= end.credit
            && (Removals(start, ops) == 0 ==> end.Budget() == start.Budget())
            && (Removals(start, ops) > 0 ==> end.Budget() <= opts.hardLimit as real)
  {
    BudgetOverRun(NewTracker(Validate(opts).opts), ops);
  }
}
