/** The loop of `main` (src/main.rs:16-52): read the log line by line,
    parse each line and apply the command to one store that lives for the
    whole run, printing one reply per line.

    The lines are a parameter instead of the file `commands.log`, and the
    replies are collected instead of printed. The first line that does not
    parse, and the first INCR that fails, end the run: what was replied
    before stays, and nothing after it is applied. */
module Interpreter {
  import opened Wrappers
  import opened Parser
  import opened ParserProperties
  import opened Decimal
  import opened Store
  import opened StoreProperties

  /** One iteration of the loop: parse the line, then apply the command;
      a line that does not parse stops the run (the `unwrap` on the parse
      result). */
  function StepLine(db: Db, line: string): (o: Outcome)
    ensures o == Halt(ParseError) <==> ParseCommand(line).Failed?
    ensures ParseCommand(line).Done? ==> o == Step(db, ParseCommand(line).out)
  {
    match ParseCommand(line)
    case Failed => Halt(ParseError)
    case Done(_, c) => Step(db, c)
  }

  /** The whole run from store `db` as a value: the specification of `Run`. */
  function Interpret(db: Db, lines: seq<string>): (t: Trace)
  {
    Fold(StepLine, db, lines)
  }

  /** One iteration of the loop on a `KvStore` object: parse the line and
      apply its command in place. On success the store and the reply are
      the ones `StepLine` gives; on failure the store is unchanged. */
  method RunLine(store: KvStore, line: string) returns (reply: Option<string>, failure: Option<Failure>)
    modifies store
    ensures match StepLine(old(store.db), line)
      case Next(d, r) => store.db == d && reply == Some(r) && failure == None
      case Halt(f) => store.db == old(store.db) && reply == None && failure == Some(f)
  {
    var parsed := ParseCommand(line);
    if parsed.Failed? {
      // the `unwrap` on the parse result panics
      return None, Some(ParseError);
    }
    reply, failure := store.Apply(parsed.out);
  }

  /** Run the log from an empty store, one line at a time, through a
      `KvStore` object that is updated in place. */
  method Run(lines: seq<string>) returns (replies: seq<string>, failure: Option<Failure>)
    ensures replies == Interpret(map[], lines).replies
    ensures failure == Interpret(map[], lines).failure
  {
    ghost var whole := Interpret(map[], lines);
    var store := new KvStore();
    replies, failure := [], None;
    var i := 0;
    assert whole == After(replies, Interpret(store.db, lines[i..])) by {
      assert lines[i..] == lines;
      assert [] + whole.replies == whole.replies;
    }
    while i < |lines|
      invariant 0 <= i <= |lines| && failure.None?
      invariant whole == After(replies, Interpret(store.db, lines[i..]))
      decreases |lines| - i
    {
      ghost var db, rest := store.db, lines[i..];
      ghost var o := StepLine(db, lines[i]);
      assert rest[0] == lines[i] && rest[1..] == lines[i + 1..];
      var reply, f := RunLine(store, lines[i]);
      if f.Some? {
        assert o.Halt? && f == Some(o.failure);
        FoldAfterHalt(StepLine, replies, db, rest);
        failure := f;
        break;
      }
      assert o.Next? && store.db == o.db && reply == Some(o.reply);
      FoldAfterNext(StepLine, replies, db, rest);
      replies := replies + [reply.value];
      i := i + 1;
    }
    if failure.None? {
      assert lines[i..] == [];
      assert replies + [] == replies;
    }
  }

  /** When every line parses, running the lines is executing the commands
      they parse to: the text after each command plays no part. */
  lemma InterpretParsed(db: Db, lines: seq<string>, cs: seq<Command>)
    requires |lines| == |cs|
    requires forall i :: 0 <= i < |lines| ==> ParseCommand(lines[i]).Done? && ParseCommand(lines[i]).out == cs[i]
    ensures Interpret(db, lines) == Execute(db, cs)
  {
    assert forall d: Db, i :: 0 <= i < |lines| ==> StepLine(d, lines[i]) == Step(d, cs[i]);
    FoldAgree(StepLine, Step, db, lines, cs);
  }

  /** The line a run fails on either does not parse, and only then is the
      failure `ParseError`, or parses to a command whose step fails on the
      store the run had reached; every line before it was applied. */
  lemma InterpretFailingLine(db: Db, lines: seq<string>)
    ensures var t := Interpret(db, lines);
      t.failure.Some? ==>
        var p := ParseCommand(lines[|t.replies|]);
        (p.Failed? <==> t.failure == Some(ParseError)) &&
        (p.Done? ==> Step(t.db, p.out) == Halt(t.failure.value)) &&
        Interpret(db, lines[..|t.replies|]) == Trace(t.replies, t.db, None)
  {
    FoldStopsAtFailure(StepLine, db, lines);
  }

  /** The commands of the sample session, in the order of its lines. */
  function SessionCommands(): seq<Command> {
    [Set("a", "1"), Incr("a"), Get("a"), Del("a"), Get("a"), Flush]
  }

  // Each line of the sample session parses to its command with nothing
  // left over.

  lemma ParsesSetA1()
    ensures ParseCommand("SET a 1") == Done("", Set("a", "1"))
  {
    assert Sep(" ") && Word("a") && Word("1");
    assert "SET a 1" == "SET" + " " + "a" + " " + "1" + "";
    ParseSetShape(" ", "a", " ", "1", "");
  }

  lemma ParsesIncrA()
    ensures ParseCommand("INCR a") == Done("", Incr("a"))
  {
    assert Sep(" ") && Word("a");
    assert "INCR a" == "INCR" + " " + "a" + "";
    ParseIncrShape(" ", "a", "");
  }

  lemma ParsesGetA()
    ensures ParseCommand("GET a") == Done("", Get("a"))
  {
    assert Sep(" ") && Word("a");
    assert "GET a" == "GET" + " " + "a" + "";
    ParseGetShape(" ", "a", "");
  }

  /** GET, DEL, GET, FLUSH on a store holding "2" at "a" reply 2, OK,
      nil, OK and leave the store empty. */
  lemma SessionEnd()
    ensures Execute(map["a" := "2"], [Get("a"), Del("a"), Get("a"), Flush]) == Trace(["2", "OK", "nil", "OK"], map[], None)
  {
    var d: Db := map["a" := "2"];
    var empty: Db := map[];
    var s5: seq<Command> := [Flush];
    assert s5 == [Flush] + [];
    ExecuteCons(empty, Flush, [], empty, "OK");
    var s4 := [Get("a")] + s5;
    ExecuteCons(empty, Get("a"), s5, empty, "nil");
    var s3 := [Del("a")] + s4;
    assert d - {"a"} == empty;
    ExecuteCons(d, Del("a"), s4, empty, "OK");
    var s2 := [Get("a")] + s3;
    ExecuteCons(d, Get("a"), s3, d, "2");
    assert s2 == [Get("a"), Del("a"), Get("a"), Flush];
    assert ["2"] + (["OK"] + (["nil"] + (["OK"] + []))) == ["2", "OK", "nil", "OK"];
  }

  /** INCR turns the stored "1" into "2". */
  lemma IncrOneToTwo()
    ensures Step(map["a" := "1"], Incr("a")) == Next(map["a" := "2"], "OK")
  {
    var d1: Db := map["a" := "1"];
    OneIsShown();
    IncrAfterIncr(d1, "a", 1);
    assert ShowInt(2) == "2";
    assert d1["a" := "2"] == map["a" := "2"];
  }

  /** The commands of the sample session reply OK, OK, 2, OK, nil, OK
      and leave the store empty. */
  lemma SessionExecutes()
    ensures Execute(map[], SessionCommands()) == Trace(["OK", "OK", "2", "OK", "nil", "OK"], map[], None)
  {
    var db: Db := map[];
    var d1: Db := map["a" := "1"];
    var d2: Db := map["a" := "2"];
    var s2: seq<Command> := [Get("a"), Del("a"), Get("a"), Flush];
    SessionEnd();
    IncrOneToTwo();
    ExecuteCons(d1, Incr("a"), s2, d2, "OK");
    assert db["a" := "1"] == d1;
    ExecuteCons(db, Set("a", "1"), [Incr("a")] + s2, d1, "OK");
    SessionSplits();
  }

  lemma SessionSplits()
    ensures [Set("a", "1")] + ([Incr("a")] + [Get("a"), Del("a"), Get("a"), Flush]) == SessionCommands()
    ensures ["OK"] + (["OK"] + ["2", "OK", "nil", "OK"]) == ["OK", "OK", "2", "OK", "nil", "OK"]
  {
  }

  /** The lines of the sample session: SET, INCR, GET, DEL, GET, FLUSH on
      one key. */
  function SessionLines(): seq<string> {
    ["SET a 1", "INCR a", "GET a", "DEL a", "GET a", "FLUSH"]
  }

  /** Each line of the sample session parses to its command. */
  lemma SessionParses()
    ensures forall i :: 0 <= i < |SessionLines()| ==>
      ParseCommand(SessionLines()[i]).Done? && ParseCommand(SessionLines()[i]).out == SessionCommands()[i]
  {
    var lines := SessionLines();
    forall i | 0 <= i < |lines|
      ensures ParseCommand(lines[i]) == Done("", SessionCommands()[i])
    {
      if i == 0 {
        ParsesSetA1();
      } else if i == 1 {
        ParsesIncrA();
      } else if i == 2 || i == 4 {
        ParsesGetA();
      } else if i == 3 {
        ExampleDel();
      } else {
        ExampleFlush();
      }
    }
  }

  /** The sample session replies OK, OK, 2, OK, nil, OK and ends with an
      empty store. */
  lemma Session()
    ensures Interpret(map[], SessionLines()) == Trace(["OK", "OK", "2", "OK", "nil", "OK"], map[], None)
  {
    SessionParses();
    InterpretParsed(map[], SessionLines(), SessionCommands());
    SessionExecutes();
  }

  lemma ParsesSetAHello()
    ensures ParseCommand("SET a hello") == Done("", Set("a", "hello"))
  {
    assert Sep(" ") && Word("a") && Word("hello");
    assert "SET a hello" == "SET" + " " + "a" + " " + "hello" + "";
    ParseSetShape(" ", "a", " ", "hello", "");
  }

  /** INCR on the stored text "hello" fails: it is not a number. */
  lemma IncrOnHello()
    ensures Step(map["a" := "hello"], Incr("a")) == Halt(IncrTypeError)
  {
    ParseRejects();
  }

  /** INCR on a value that is not a number halts the run after the reply
      to the SET that stored it. */
  lemma SessionIncrTypeError()
    ensures Interpret(map[], ["SET a hello", "INCR a"]) == Trace(["OK"], map["a" := "hello"], Some(IncrTypeError))
  {
    var d: Db := map["a" := "hello"];
    ParsesSetAHello();
    ParsesIncrA();
    IncrOnHello();
    assert StepLine(map[], "SET a hello") == Next(d, "OK");
    FoldNextHalt(StepLine, map[], "SET a hello", "INCR a", []);
    assert ["SET a hello", "INCR a"] + [] == ["SET a hello", "INCR a"];
  }

  /** A line that does not parse halts the run; the lines after it are
      never applied. */
  lemma SessionParseError()
    ensures Interpret(map[], ["SET a b", "get a", "DEL a"]) == Trace(["OK"], map["a" := "b"], Some(ParseError))
  {
    var d: Db := map["a" := "b"];
    ExampleSet();
    ExampleUnknownKeyword();
    assert StepLine(map[], "SET a b") == Next(d, "OK");
    FoldNextHalt(StepLine, map[], "SET a b", "get a", ["DEL a"]);
    assert ["SET a b", "get a"] + ["DEL a"] == ["SET a b", "get a", "DEL a"];
  }
}
