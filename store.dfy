/** The store executor: the `match` in `main` (src/main.rs:24-50) that
    applies one command to the `HashMap<String, String>` and prints one
    reply. Replies are returned instead of printed; the two panics the
    source can hit while applying a command (a stored value that is not an
    integer, and `value + 1` overflowing) become explicit failures. */
module Store {
  import opened Wrappers
  import opened Parser
  import opened Decimal

  type Db = map<string, string>

  /** Why a run stops: the line does not parse (the `unwrap` on
      `parse_command`), INCR finds a value that is not an `i64` (the
      `unwrap` on `parse::<i64>`), or INCR would overflow `i64`. */
  datatype Failure = ParseError | IncrTypeError | IncrOverflow

  /** The outcome of applying one command. */
  datatype Outcome = Next(db: Db, reply: string) | Halt(failure: Failure)

  /** The effect and reply of one command: the specification of
      `KvStore.Apply`. */
  function Step(db: Db, c: Command): (o: Outcome)
    ensures o.Halt? ==> c.Incr? && o.failure != ParseError
    ensures o.Next? && !c.Get? ==> o.reply == "OK"
    ensures o.Next? && c.Get? ==> o.db == db
  {
    match c
    case Set(k, v) => Next(db[k := v], "OK")
    case Get(k) => Next(db, if k in db then db[k] else "nil")
    case Del(k) => Next(db - {k}, "OK")
    case Incr(k) =>
      var current := if k in db then db[k] else "0";
      (match ParseI64(current)
       case None => Halt(IncrTypeError)
       case Some(n) => if InI64(n + 1) then Next(db[k := ShowInt(n + 1)], "OK") else Halt(IncrOverflow))
    case Flush => Next(map[], "OK")
  }

  /** The replies and final store of a sequence of inputs, stopping at the
      first failure; the store is then the one before the failing input. */
  datatype Trace = Trace(replies: seq<string>, db: Db, failure: Option<Failure>)

  /** `t` preceded by the replies already given. */
  function After(replies: seq<string>, t: Trace): Trace {
    Trace(replies + t.replies, t.db, t.failure)
  }

  /** Feed the inputs to `step` in order, threading the store and collecting
      one reply each, until a step fails. Executing commands and
      interpreting lines are both such folds. */
  function Fold<T>(step: (Db, T) -> Outcome, db: Db, xs: seq<T>): (t: Trace)
    ensures t.failure.None? <==> |t.replies| == |xs|
    ensures |t.replies| <= |xs|
    decreases |xs|
  {
    if xs == [] then Trace([], db, None)
    else
      match step(db, xs[0])
      case Halt(f) => Trace([], db, Some(f))
      case Next(d, r) =>
        var t := Fold(step, d, xs[1..]);
        Trace([r] + t.replies, t.db, t.failure)
  }

  /** Apply the commands in order, one reply each, until one fails. */
  function Execute(db: Db, cs: seq<Command>): (t: Trace)
    ensures t.failure.None? <==> |t.replies| == |cs|
    ensures |t.replies| <= |cs|
  {
    Fold(Step, db, cs)
  }

  /** The key-value store that `main` owns and updates in place. */
  class KvStore {
    var db: Db

    constructor ()
      ensures db == map[]
    {
      db := map[];
    }

    /** Apply one command: on success the store becomes the one `Step`
        gives and the reply is returned; on failure nothing changes. */
    method Apply(c: Command) returns (reply: Option<string>, failure: Option<Failure>)
      modifies this
      ensures match Step(old(db), c)
        case Next(d, r) => db == d && reply == Some(r) && failure == None
        case Halt(f) => db == old(db) && reply == None && failure == Some(f)
    {
      reply, failure := None, None;
      match c {
        case Set(k, v) =>
          db := db[k := v];
          reply := Some("OK");
        case Get(k) =>
          if k in db {
            reply := Some(db[k]);
          } else {
            reply := Some("nil");
          }
        case Del(k) =>
          db := db - {k};
          reply := Some("OK");
        case Incr(k) =>
          // `entry(key).or_insert("0")` stores "0" before the value is read
          if k !in db {
            db := db[k := "0"];
            assert ParseI64("0") == Some(0) by {
              assert ParseDigits("0") == Some(0);
            }
          }
          match ParseI64(db[k]) {
            case None =>
              failure := Some(IncrTypeError);
            case Some(n) =>
              if InI64(n + 1) {
                db := db[k := ShowInt(n + 1)];
                assert db == old(db)[k := ShowInt(n + 1)];
                reply := Some("OK");
              } else {
                failure := Some(IncrOverflow);
              }
          }
        case Flush =>
          db := map[];
          reply := Some("OK");
      }
    }
  }
}
