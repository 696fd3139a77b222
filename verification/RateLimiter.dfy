/** The relayer's token buckets, one per client and class of request, and the timer that forgets idle ones. */
module RateLimiter {

  datatype Class = Rpc | Relay | Search | Other

  /** Tokens per second and the most a bucket holds. */
  datatype Limit = Limit(perSec: real, burst: real)

  function LimitOf(c: Class): Limit {
    match c
    case Rpc => Limit(15.0, 60.0)
    case Relay => Limit(0.2, 6.0)
    case Search => Limit(3.0, 15.0)
    case Other => Limit(30.0, 120.0)
  }

  datatype Id = Id(kind: Class, ip: nat)

  /** Times are in milliseconds. */
  datatype Bucket = Bucket(tokens: real, at: int)

  type Buckets = map<Id, Bucket>

  const IDLE_MS: int := 600_000

  function Min(a: real, b: real): real {
    if a <= b then a else b
  }

  function Gained(lim: Limit, ms: int): real {
    ms as real / 1000.0 * lim.perSec
  }

  /** What a bucket holds at `now`, a bucket not there counting as full. */
  function Level(b: Buckets, id: Id, now: int): real {
    var lim := LimitOf(id.kind);
    if id in b then Min(lim.burst, b[id].tokens + Gained(lim, now - b[id].at)) else lim.burst
  }

  predicate Admits(b: Buckets, id: Id, now: int) {
    Level(b, id, now) >= 1.0
  }

  function AfterRequest(b: Buckets, id: Id, now: int): Buckets {
    var level := Level(b, id, now);
    b[id := Bucket(if Admits(b, id, now) then level - 1.0 else level, now)]
  }

  function AfterEviction(b: Buckets, now: int): Buckets {
    map id | id in b && b[id].at >= now - IDLE_MS :: b[id]
  }

  class Limiter {
    var buckets: Buckets

    constructor ()
      ensures buckets == map[]
    {
      buckets := map[];
    }

    /** `allow`: create a full bucket if needed, refill, then take a token if there is one. */
    method Allow(id: Id, now: int) returns (ok: bool)
      modifies this
      ensures ok == Admits(old(buckets), id, now)
      ensures buckets == AfterRequest(old(buckets), id, now)
    {
      var lim := LimitOf(id.kind);
      if id !in buckets {
        buckets := buckets[id := Bucket(lim.burst, now)];
      }
      var b := buckets[id];
      assert Gained(lim, 0) == 0.0;
      b := b.(tokens := Min(lim.burst, b.tokens + Gained(lim, now - b.at)));
      b := b.(at := now);
      if b.tokens < 1.0 {
        buckets := buckets[id := b];
        return false;
      }
      buckets := buckets[id := b.(tokens := b.tokens - 1.0)];
      return true;
    }

    /** The timer: drop every bucket untouched for ten minutes. */
    method Evict(now: int)
      modifies this
      ensures buckets == AfterEviction(old(buckets), now)
      ensures forall id :: id in buckets <==> id in old(buckets) && now - old(buckets)[id].at <= 10 * 60_000
    {
      var cutoff := now - IDLE_MS;
      var todo := buckets.Keys;
      while todo != {}
        invariant todo <= old(buckets).Keys
        invariant forall id :: id in buckets <==> id in old(buckets) && (id in todo || old(buckets)[id].at >= cutoff)
        invariant forall id | id in buckets :: buckets[id] == old(buckets)[id]
        decreases todo
      {
        var id :| id in todo;
        if buckets[id].at < cutoff {
          buckets := buckets - {id};
        }
        todo := todo - {id};
      }
    }
  }

  // ---------- how much gets through ----------

  /** Requests admitted of those one client makes in one class at the given times. */
  function Admitted(b: Buckets, id: Id, times: seq<int>): nat
    decreases |times|
  {
    if times == [] then 0
    else (if Admits(b, id, times[0]) then 1 else 0) + Admitted(AfterRequest(b, id, times[0]), id, times[1..])
  }

  /** The clock does not run backwards. */
  predicate Ordered(times: seq<int>, from: int) {
    times == [] || (from <= times[0] && Ordered(times[1..], times[0]))
  }

  function End(times: seq<int>, from: int): int {
    if times == [] then from else End(times[1..], times[0])
  }

  /** No bucket was touched later than `now`, and none is overdrawn. */
  predicate Sane(b: Buckets, now: int) {
    forall id | id in b :: b[id].at <= now && 0.0 <= b[id].tokens <= LimitOf(id.kind).burst
  }

  lemma GainedMore(lim: Limit, a: int, b: int)
    requires a <= b && lim.perSec >= 0.0
    ensures Gained(lim, a) <= Gained(lim, b)
    ensures Gained(lim, b) == Gained(lim, a) + Gained(lim, b - a)
  {
    var x, y := a as real / 1000.0, b as real / 1000.0;
    assert (b - a) as real / 1000.0 == y - x;
    assert y * lim.perSec == x * lim.perSec + (y - x) * lim.perSec;
    assert (y - x) * lim.perSec >= 0.0;
  }

  lemma RequestSane(b: Buckets, id: Id, now: int)
    requires Sane(b, now)
    ensures Sane(AfterRequest(b, id, now), now) && 0.0 <= Level(b, id, now) <= LimitOf(id.kind).burst
  {
    var lim := LimitOf(id.kind);
    if id in b {
      GainedMore(lim, 0, now - b[id].at);
    }
  }

  /** From a bucket last touched at `from`: what it holds plus what it gains bounds what it admits. */
  lemma {:induction false} AdmittedFrom(b: Buckets, id: Id, times: seq<int>, from: int)
    requires Sane(b, from) && id in b && b[id].at == from && Ordered(times, from)
    ensures Admitted(b, id, times) as real <= b[id].tokens + Gained(LimitOf(id.kind), End(times, from) - from)
    ensures End(times, from) >= from
    decreases |times|
  {
    var lim := LimitOf(id.kind);
    if times == [] {
      GainedMore(lim, 0, 0);
    } else {
      var now := times[0];
      assert Sane(b, now);
      RequestSane(b, id, now);
      var after := AfterRequest(b, id, now);
      AdmittedFrom(after, id, times[1..], now);
      hide Gained;
      hide Sane;
      GainedMore(lim, now - from, End(times, from) - from);
      assert End(times, from) - from - (now - from) == End(times[1..], now) - now;
    }
  }

  /** From the first request on: a bucket is never more than full. */
  lemma AdmittedOnce(b: Buckets, id: Id, times: seq<int>, from: int)
    requires Sane(b, from) && times != [] && Ordered(times, from)
    ensures End(times, from) >= times[0]
    ensures Admitted(b, id, times) as real
         <= LimitOf(id.kind).burst + Gained(LimitOf(id.kind), End(times, from) - times[0])
  {
    hide Gained;
    hide Sane;
    hide Admits;
    hide AfterRequest;
    hide LimitOf;
    var now := times[0];
    SaneLater(b, from, now);
    BucketAfter(b, id, now);
    AdmittedFrom(AfterRequest(b, id, now), id, times[1..], now);
  }

  lemma SaneLater(b: Buckets, from: int, now: int)
    requires Sane(b, from) && from <= now
    ensures Sane(b, now)
  {
  }

  /** What a request leaves in the bucket, and what it took, were in it. */
  lemma BucketAfter(b: Buckets, id: Id, now: int)
    requires Sane(b, now)
    ensures var after := AfterRequest(b, id, now);
            && Sane(after, now) && id in after && after[id].at == now
            && after[id].tokens + (if Admits(b, id, now) then 1.0 else 0.0) <= LimitOf(id.kind).burst
  {
    RequestSane(b, id, now);
  }

  /** Over any stretch of time one client gets at most the burst plus the rate times the time, whatever came before. */
  lemma AdmissionBound(b: Buckets, id: Id, times: seq<int>, from: int, until: int)
    requires Sane(b, from) && Ordered(times, from) && from <= until && End(times, from) <= until
    ensures Admitted(b, id, times) as real <= LimitOf(id.kind).burst + Gained(LimitOf(id.kind), until - from)
  {
    var lim := LimitOf(id.kind);
    GainedMore(lim, 0, until - from);
    if times != [] {
      AdmittedOnce(b, id, times, from);
      GainedMore(lim, End(times, from) - times[0], until - from);
      hide Gained;
      hide Sane;
      hide Admitted;
      hide LimitOf;
      hide End;
    }
  }

  /** A client whose bucket had time for one token is admitted, whatever it did before. */
  lemma SpacedRequestAdmitted(b: Buckets, id: Id, now: int)
    requires Sane(b, now)
    requires id in b ==> Gained(LimitOf(id.kind), now - b[id].at) >= 1.0
    ensures Admits(b, id, now)
  {
  }

  function Repeated(now: int, n: nat): seq<int> {
    if n == 0 then [] else [now] + Repeated(now, n - 1)
  }

  /** At one instant a bucket admits exactly as many requests as it holds whole tokens. */
  lemma {:induction false} InstantAdmissions(b: Buckets, id: Id, now: int, n: nat, whole: nat)
    requires Sane(b, now) && whole as real <= Level(b, id, now) < whole as real + 1.0
    ensures Admitted(b, id, Repeated(now, n)) == if n <= whole then n else whole
    decreases n
  {
    if n > 0 {
      RequestSane(b, id, now);
      var after := AfterRequest(b, id, now);
      LevelAfter(b, id, now);
      assert Repeated(now, n)[1..] == Repeated(now, n - 1);
      InstantAdmissions(after, id, now, n - 1, if whole > 0 then whole - 1 else 0);
    }
  }

  lemma LevelAfter(b: Buckets, id: Id, now: int)
    requires Sane(b, now)
    ensures Level(AfterRequest(b, id, now), id, now) == Level(b, id, now) - (if Admits(b, id, now) then 1.0 else 0.0)
  {
    RequestSane(b, id, now);
    assert Gained(LimitOf(id.kind), 0) == 0.0;
  }

  /** A new client may send its whole burst at once, and not one request more. */
  lemma NewClientGetsBurst(b: Buckets, id: Id, now: int, n: nat)
    requires Sane(b, now) && id !in b
    ensures Admitted(b, id, Repeated(now, n)) as real == Min(n as real, LimitOf(id.kind).burst)
  {
    var burst: nat := match id.kind case Rpc => 60 case Relay => 6 case Search => 15 case Other => 120;
    InstantAdmissions(b, id, now, n, burst);
  }

  // ---------- eviction cannot be noticed ----------

  datatype Event = Request(id: Id, now: int) | Timer(now: int)

  /** The answers given, with the timer working or switched off. */
  function Answers(b: Buckets, events: seq<Event>, evicting: bool): seq<bool>
    decreases |events|
  {
    if events == [] then []
    else
      match events[0]
      case Request(id, now) => [Admits(b, id, now)] + Answers(AfterRequest(b, id, now), events[1..], evicting)
      case Timer(now) => Answers(if evicting then AfterEviction(b, now) else b, events[1..], evicting)
  }

  predicate InOrder(events: seq<Event>, from: int) {
    events == [] || (from <= events[0].now && InOrder(events[1..], events[0].now))
  }

  /** A bucket one side has dropped is, on the other side, one that has been idle long enough to be full again. */
  ghost predicate Alike(a: Buckets, b: Buckets, now: int) {
    && Sane(a, now) && Sane(b, now)
    && (forall id | id in a :: id in b && a[id] == b[id])
    && (forall id | id in b && id !in a :: b[id].at <= now - IDLE_MS)
  }

  /** Ten minutes fill every class of bucket. */
  lemma IdleIsFull(b: Buckets, id: Id, now: int)
    requires Sane(b, now) && id in b && b[id].at <= now - IDLE_MS
    ensures Level(b, id, now) == LimitOf(id.kind).burst
  {
    var lim := LimitOf(id.kind);
    GainedMore(lim, IDLE_MS, now - b[id].at);
    assert Gained(lim, IDLE_MS) == 600.0 * lim.perSec;
  }

  lemma AlikeAdmits(a: Buckets, b: Buckets, id: Id, now: int)
    requires Alike(a, b, now)
    ensures Level(a, id, now) == Level(b, id, now)
    ensures Alike(AfterRequest(a, id, now), AfterRequest(b, id, now), now)
  {
    if id in b && id !in a {
      IdleIsFull(b, id, now);
    }
    RequestSane(a, id, now);
    RequestSane(b, id, now);
  }

  /** Every run gives the same answers with eviction as without. */
  lemma {:induction false} EvictionUnobservable(a: Buckets, b: Buckets, events: seq<Event>, from: int)
    requires Alike(a, b, from) && InOrder(events, from)
    ensures Answers(a, events, true) == Answers(b, events, false)
    decreases |events|
  {
    if events != [] {
      var now := events[0].now;
      assert Alike(a, b, now);
      match events[0] {
        case Request(id, _) =>
          AlikeAdmits(a, b, id, now);
          EvictionUnobservable(AfterRequest(a, id, now), AfterRequest(b, id, now), events[1..], now);
        case Timer(_) =>
          assert Alike(AfterEviction(a, now), b, now);
          EvictionUnobservable(AfterEviction(a, now), b, events[1..], now);
      }
    }
  }

  // ---------- how much gets through a whole run ----------

  function Requests(events: seq<Event>): nat {
    if events == [] then 0 else (if events[0].Request? then 1 else 0) + Requests(events[1..])
  }

  lemma {:induction false} AnswerEach(b: Buckets, events: seq<Event>, evicting: bool)
    ensures |Answers(b, events, evicting)| == Requests(events)
    decreases |events|
  {
    if events != [] {
      match events[0]
      case Request(id, now) => AnswerEach(AfterRequest(b, id, now), events[1..], evicting);
      case Timer(now) => AnswerEach(if evicting then AfterEviction(b, now) else b, events[1..], evicting);
    }
  }

  /** How many of a run's answers let this client's requests of this class through. */
  function Granted(events: seq<Event>, answers: seq<bool>, id: Id): nat
    requires |answers| == Requests(events)
  {
    if events == [] then 0
    else if events[0].Timer? then Granted(events[1..], answers, id)
    else (if events[0].id == id && answers[0] then 1 else 0) + Granted(events[1..], answers[1..], id)
  }

  /** When this client made its requests of this class. */
  function TimesOf(events: seq<Event>, id: Id): seq<int> {
    if events == [] then []
    else if events[0].Request? && events[0].id == id then [events[0].now] + TimesOf(events[1..], id)
    else TimesOf(events[1..], id)
  }

  function Last(events: seq<Event>, from: int): int {
    if events == [] then from else Last(events[1..], events[0].now)
  }

  lemma {:induction false} TimesInOrder(events: seq<Event>, id: Id, from: int, start: int)
    requires InOrder(events, from) && start <= from
    ensures Ordered(TimesOf(events, id), start) && End(TimesOf(events, id), start) <= Last(events, from)
    ensures from <= Last(events, from)
    decreases |events|
  {
    if events != [] {
      var now := events[0].now;
      if events[0].Request? && events[0].id == id {
        TimesInOrder(events[1..], id, now, now);
        assert TimesOf(events, id)[1..] == TimesOf(events[1..], id);
      } else {
        TimesInOrder(events[1..], id, now, start);
      }
    }
  }

  /** One bucket is the same on both sides. */
  predicate SameBucket(a: Buckets, b: Buckets, id: Id) {
    (id in a <==> id in b) && (id in a ==> a[id] == b[id])
  }

  /** Without the timer, what one client gets does not depend on what the others do. */
  lemma {:induction false} OthersUnnoticed(a: Buckets, b: Buckets, events: seq<Event>, id: Id)
    requires SameBucket(a, b, id)
    ensures |Answers(a, events, false)| == Requests(events)
    ensures Granted(events, Answers(a, events, false), id) == Admitted(b, id, TimesOf(events, id))
    decreases |events|
  {
    AnswerEach(a, events, false);
    if events != [] {
      match events[0]
      case Request(other, now) =>
        var rest := Answers(AfterRequest(a, other, now), events[1..], false);
        assert Answers(a, events, false)[1..] == rest;
        if other == id {
          OthersUnnoticed(AfterRequest(a, id, now), AfterRequest(b, id, now), events[1..], id);
          assert TimesOf(events, id)[1..] == TimesOf(events[1..], id);
        } else {
          OthersUnnoticed(AfterRequest(a, other, now), b, events[1..], id);
        }
      case Timer(_) =>
        OthersUnnoticed(a, b, events[1..], id);
    }
  }

  /** Buckets after a run. */
  function After(b: Buckets, events: seq<Event>, evicting: bool): Buckets
    decreases |events|
  {
    if events == [] then b
    else
      match events[0]
      case Request(id, now) => After(AfterRequest(b, id, now), events[1..], evicting)
      case Timer(now) => After(if evicting then AfterEviction(b, now) else b, events[1..], evicting)
  }

  lemma {:induction false} AfterSane(b: Buckets, events: seq<Event>, evicting: bool, from: int)
    requires Sane(b, from) && InOrder(events, from)
    ensures Sane(After(b, events, evicting), Last(events, from))
    decreases |events|
  {
    if events != [] {
      var now := events[0].now;
      SaneLater(b, from, now);
      match events[0]
      case Request(id, _) =>
        RequestSane(b, id, now);
        AfterSane(AfterRequest(b, id, now), events[1..], evicting, now);
      case Timer(_) =>
        AfterSane(if evicting then AfterEviction(b, now) else b, events[1..], evicting, now);
    }
  }

  /** A run's answers are those of its first part, and then those of the second from where the first ended. */
  lemma {:induction false} AnswersSplit(b: Buckets, before: seq<Event>, events: seq<Event>, evicting: bool)
    ensures Answers(b, before + events, evicting)
         == Answers(b, before, evicting) + Answers(After(b, before, evicting), events, evicting)
    decreases |before|
  {
    if before == [] {
      assert before + events == events;
    } else {
      assert (before + events)[1..] == before[1..] + events;
      match before[0]
      case Request(id, now) =>
        AnswersSplit(AfterRequest(b, id, now), before[1..], events, evicting);
      case Timer(now) =>
        AnswersSplit(if evicting then AfterEviction(b, now) else b, before[1..], events, evicting);
    }
  }

  /**
   * In any stretch of any run, whatever other clients do and whenever the timer fires, one client gets at most the
   * burst plus the rate times the time.
   */
  lemma RunAdmissionBound(before: seq<Event>, events: seq<Event>, evicting: bool, id: Id,
      start: int, from: int, until: int)
    requires InOrder(before, start) && Last(before, start) <= from
    requires InOrder(events, from) && Last(events, from) <= until
    ensures Answers(map[], before, evicting) <= Answers(map[], before + events, evicting)
    ensures var answers := Answers(map[], before + events, evicting)[|Answers(map[], before, evicting)|..];
            && |answers| == Requests(events)
            && Granted(events, answers, id) as real
               <= LimitOf(id.kind).burst + Gained(LimitOf(id.kind), until - from)
  {
    hide Answers;
    hide Granted;
    hide Gained;
    hide LimitOf;
    var b := After(map[], before, evicting);
    NoneSane(start);
    AfterSane(map[], before, evicting, start);
    SaneLater(b, Last(before, start), from);
    AnswersSplit(map[], before, events, evicting);
    AnswerEach(b, events, evicting);
    if evicting {
      AlikeItself(b, from);
      EvictionUnobservable(b, b, events, from);
    }
    OthersUnnoticed(b, b, events, id);
    TimesInOrder(events, id, from, from);
    AdmissionBound(b, id, TimesOf(events, id), from, until);
  }

  lemma NoneSane(now: int)
    ensures Sane(map[], now)
  {
  }

  lemma AlikeItself(b: Buckets, now: int)
    requires Sane(b, now)
    ensures Alike(b, b, now)
  {
  }

  /** The bound in numbers: requests let through in `seconds` seconds, by class. */
  lemma AdmissionsPerClass(before: seq<Event>, events: seq<Event>, evicting: bool, id: Id,
      start: int, from: int, seconds: nat)
    requires InOrder(before, start) && Last(before, start) <= from
    requires InOrder(events, from) && Last(events, from) <= from + 1000 * seconds
    ensures Answers(map[], before, evicting) <= Answers(map[], before + events, evicting)
    ensures var answers := Answers(map[], before + events, evicting)[|Answers(map[], before, evicting)|..];
            && |answers| == Requests(events)
            && var n := Granted(events, answers, id);
               match id.kind
               case Rpc => n <= 60 + 15 * seconds
               case Relay => 5 * n <= 30 + seconds
               case Search => n <= 15 + 3 * seconds
               case Other => n <= 120 + 30 * seconds
  {
    hide Granted;
    hide Answers;
    RunAdmissionBound(before, events, evicting, id, start, from, from + 1000 * seconds);
    GainedPerClass(id.kind, seconds);
  }

  lemma GainedPerClass(c: Class, seconds: nat)
    ensures Gained(LimitOf(c), 1000 * seconds)
         == match c
            case Rpc => 15.0 * seconds as real
            case Relay => 0.2 * seconds as real
            case Search => 3.0 * seconds as real
            case Other => 30.0 * seconds as real
  {
    assert (1000 * seconds) as real / 1000.0 == seconds as real;
  }

  /** How many milliseconds a client that has used up its bucket waits for one more request. */
  function Pace(c: Class): nat {
    match c
    case Rpc => 67
    case Relay => 5000
    case Search => 334
    case Other => 34
  }

  /** A client that keeps this pace is always let through, and one that comes a millisecond early may not be. */
  lemma PacePerClass(b: Buckets, id: Id, now: int)
    requires Sane(b, now)
    ensures id !in b || now - b[id].at >= Pace(id.kind) ==> Admits(b, id, now)
    ensures id in b && b[id].tokens == 0.0 && now - b[id].at < Pace(id.kind) ==> !Admits(b, id, now)
  {
    if id in b {
      var lim, waited := LimitOf(id.kind), now - b[id].at;
      var seconds := waited as real / 1000.0;
      match id.kind
      case Rpc => assert Gained(lim, waited) == seconds * 15.0;
      case Relay => assert Gained(lim, waited) == seconds * 0.2;
      case Search => assert Gained(lim, waited) == seconds * 3.0;
      case Other => assert Gained(lim, waited) == seconds * 30.0;
    }
  }

  /** A new client's burst in numbers. */
  lemma BurstPerClass(b: Buckets, id: Id, now: int, n: nat)
    requires Sane(b, now) && id !in b
    ensures var burst := match id.kind case Rpc => 60 case Relay => 6 case Search => 15 case Other => 120;
            Admitted(b, id, Repeated(now, n)) == if n <= burst then n else burst
  {
    NewClientGetsBurst(b, id, now, n);
  }
}
