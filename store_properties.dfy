/** What each command does to the store and replies (src/main.rs:24-50),
    and what sequences of commands do. */
module StoreProperties {
  import opened Wrappers
  import opened Parser
  import opened Decimal
  import opened Store

  /** After `Set(k, v)` the store maps `k` to `v`, every other key is as it
      was, and a following `Get(k)` replies `v`. */
  lemma SetThenGet(db: Db, k: string, v: string)
    ensures Step(db, Set(k, v)).Next? && Step(db, Set(k, v)).reply == "OK"
    ensures var d := Step(db, Set(k, v)).db;
      k in d && d[k] == v &&
      (forall j :: j != k ==> (j in d <==> j in db)) &&
      (forall j :: j != k && j in db ==> d[j] == db[j]) &&
      Step(d, Get(k)) == Next(d, v)
  {
  }

  /** `Get` never changes the store; it replies the stored value, or "nil"
      when the key is absent. A stored value may itself be the text "nil",
      so the reply "nil" means absent or stored "nil". */
  lemma GetReplies(db: Db, k: string)
    ensures Step(db, Get(k)).Next? && Step(db, Get(k)).db == db
    ensures k in db ==> Step(db, Get(k)).reply == db[k]
    ensures Step(db, Get(k)).reply == "nil" <==> k !in db || db[k] == "nil"
  {
  }

  /** `Del(k)` removes `k` and nothing else and replies "OK" whether or not
      `k` was there; on an absent key the store is unchanged. */
  lemma DelRemovesOnlyKey(db: Db, k: string)
    ensures Step(db, Del(k)).Next? && Step(db, Del(k)).reply == "OK"
    ensures var d := Step(db, Del(k)).db;
      k !in d && (forall j :: j != k ==> (j in d <==> j in db)) &&
      (forall j :: j in d ==> d[j] == db[j])
    ensures k !in db ==> Step(db, Del(k)).db == db
  {
  }

  /** Deleting twice is deleting once. */
  lemma DelIdempotent(db: Db, k: string)
    ensures Step(Step(db, Del(k)).db, Del(k)) == Step(db, Del(k))
  {
    assert Step(db, Del(k)).db - {k} == Step(db, Del(k)).db;
  }

  /** INCR on an absent key stores "1" (the absent value counts as "0"). */
  lemma IncrAbsent(db: Db, k: string)
    requires k !in db
    ensures Step(db, Incr(k)) == Next(db[k := "1"], "OK")
  {
    assert ParseI64("0") == Some(0) by {
      assert ParseDigits("0") == Some(0);
    }
    assert ShowInt(1) == "1";
  }

  /** INCR on a stored 64-bit integer below the maximum stores the decimal
      form of the successor and leaves every other key alone. */
  lemma IncrNumeric(db: Db, k: string, n: int)
    requires k in db && ParseI64(db[k]) == Some(n) && n < I64_MAX
    ensures Step(db, Incr(k)) == Next(db[k := ShowInt(n + 1)], "OK")
    ensures var d := Step(db, Incr(k)).db;
      forall j :: j != k ==> (j in d <==> j in db) && (j in d ==> d[j] == db[j])
  {
  }

  /** A value INCR wrote is read back by the next INCR. */
  lemma IncrAfterIncr(db: Db, k: string, n: int)
    requires k in db && db[k] == ShowInt(n) && I64_MIN <= n < I64_MAX
    ensures Step(db, Incr(k)) == Next(db[k := ShowInt(n + 1)], "OK")
  {
    ParseShowRoundTrip(n);
  }

  /** INCR on a value that is not a 64-bit integer fails and changes
      nothing; INCR at the maximum fails instead of wrapping. */
  lemma IncrFailures(db: Db, k: string)
    requires k in db
    ensures ParseI64(db[k]) == None ==> Step(db, Incr(k)) == Halt(IncrTypeError)
    ensures ParseI64(db[k]) == Some(I64_MAX) ==> Step(db, Incr(k)) == Halt(IncrOverflow)
  {
  }

  /** `Flush` empties the store, so every later `Get` replies "nil". */
  lemma FlushClears(db: Db, k: string)
    ensures Step(db, Flush) == Next(map[], "OK")
    ensures Step(Step(db, Flush).db, Get(k)) == Next(map[], "nil")
  {
  }

  /** A first input whose step fails ends the fold in the store it
      found, with no reply. */
  lemma FoldHalt<T>(step: (Db, T) -> Outcome, db: Db, x: T, xs: seq<T>)
    requires step(db, x).Halt?
    ensures Fold(step, db, [x] + xs) == Trace([], db, Some(step(db, x).failure))
  {
    assert ([x] + xs)[0] == x;
  }

  /** A first input whose step succeeds contributes its reply and hands
      its store to the rest of the fold. */
  lemma FoldCons<T>(step: (Db, T) -> Outcome, db: Db, x: T, xs: seq<T>)
    requires step(db, x).Next?
    ensures var o := step(db, x);
      var t := Fold(step, o.db, xs);
      Fold(step, db, [x] + xs) == Trace([o.reply] + t.replies, t.db, t.failure)
  {
    assert ([x] + xs)[0] == x && ([x] + xs)[1..] == xs;
  }

  /** A first input that succeeds followed by one that fails: the fold
      replies once and stops in the store the first input left, whatever
      comes after. */
  lemma FoldNextHalt<T>(step: (Db, T) -> Outcome, db: Db, x: T, y: T, rest: seq<T>)
    requires step(db, x).Next? && step(step(db, x).db, y).Halt?
    ensures var d := step(db, x).db;
      Fold(step, db, [x, y] + rest) == Trace([step(db, x).reply], d, Some(step(d, y).failure))
  {
    var d := step(db, x).db;
    assert [x, y] + rest == [x] + ([y] + rest);
    FoldHalt(step, d, y, rest);
    FoldCons(step, db, x, [y] + rest);
  }

  /** After some replies, a first input that fails ends the fold where
      it is. */
  lemma FoldAfterHalt<T>(step: (Db, T) -> Outcome, replies: seq<string>, db: Db, xs: seq<T>)
    requires xs != [] && step(db, xs[0]).Halt?
    ensures After(replies, Fold(step, db, xs)) == Trace(replies, db, Some(step(db, xs[0]).failure))
  {
    assert xs == [xs[0]] + xs[1..];
    FoldHalt(step, db, xs[0], xs[1..]);
    assert replies + [] == replies;
  }

  /** After some replies, a first input that succeeds adds its reply and
      hands its store to the rest of the inputs. */
  lemma FoldAfterNext<T>(step: (Db, T) -> Outcome, replies: seq<string>, db: Db, xs: seq<T>)
    requires xs != [] && step(db, xs[0]).Next?
    ensures var o := step(db, xs[0]);
      After(replies, Fold(step, db, xs)) == After(replies + [o.reply], Fold(step, o.db, xs[1..]))
  {
    var o := step(db, xs[0]);
    var t := Fold(step, o.db, xs[1..]);
    assert Fold(step, db, xs).replies == [o.reply] + t.replies;
    AppendAssoc(replies, [o.reply], t.replies);
  }

  /** A fold that fails stops at the first input whose step fails: the
      replies cover exactly the inputs before it, and the store is the
      one that input found. */
  lemma {:induction false} FoldStopsAtFailure<T>(step: (Db, T) -> Outcome, db: Db, xs: seq<T>)
    ensures var t := Fold(step, db, xs);
      t.failure.Some? ==>
        step(t.db, xs[|t.replies|]) == Halt(t.failure.value) &&
        Fold(step, db, xs[..|t.replies|]) == Trace(t.replies, t.db, None)
    decreases |xs|
  {
    if xs != [] {
      var x, rest := xs[0], xs[1..];
      assert xs == [x] + rest;
      if step(db, x).Halt? {
        FoldHalt(step, db, x, rest);
        assert xs[..0] == [];
      } else {
        var d := step(db, x).db;
        var t := Fold(step, d, rest);
        FoldCons(step, db, x, rest);
        FoldStopsAtFailure(step, d, rest);
        if t.failure.Some? {
          var n := |t.replies|;
          assert xs[..n + 1] == [x] + rest[..n];
          FoldCons(step, db, x, rest[..n]);
        }
      }
    }
  }

  /** Folding over `a` then `b` is folding over `a + b`: inputs are taken
      strictly in order, and nothing after a failure is applied. */
  lemma {:induction false} FoldAppend<T>(step: (Db, T) -> Outcome, db: Db, a: seq<T>, b: seq<T>)
    ensures var ta := Fold(step, db, a);
      Fold(step, db, a + b) ==
        if ta.failure.Some? then ta
        else
          var tb := Fold(step, ta.db, b);
          Trace(ta.replies + tb.replies, tb.db, tb.failure)
    decreases |a|
  {
    if a == [] {
      assert a + b == b;
      assert [] + Fold(step, db, b).replies == Fold(step, db, b).replies;
    } else {
      var x, rest := a[0], a[1..];
      assert a == [x] + rest && a + b == [x] + (rest + b);
      if step(db, x).Halt? {
        FoldHalt(step, db, x, rest);
        FoldHalt(step, db, x, rest + b);
      } else {
        var o := step(db, x);
        FoldCons(step, db, x, rest);
        FoldCons(step, db, x, rest + b);
        FoldAppend(step, o.db, rest, b);
        var ta := Fold(step, o.db, rest);
        if ta.failure.None? {
          var tb := Fold(step, ta.db, b);
          AppendAssoc([o.reply], ta.replies, tb.replies);
        }
      }
    }
  }

  /** Two folds whose steps agree input by input, on every store, give
      the same trace. */
  lemma {:induction false} FoldAgree<T, U>(f: (Db, T) -> Outcome, g: (Db, U) -> Outcome, db: Db, xs: seq<T>, ys: seq<U>)
    requires |xs| == |ys|
    requires forall d: Db, i :: 0 <= i < |xs| ==> f(d, xs[i]) == g(d, ys[i])
    ensures Fold(f, db, xs) == Fold(g, db, ys)
    decreases |xs|
  {
    if xs != [] {
      assert f(db, xs[0]) == g(db, ys[0]);
      if f(db, xs[0]).Next? {
        var d := f(db, xs[0]).db;
        assert forall e: Db, i :: 0 <= i < |xs[1..]| ==> f(e, xs[1..][i]) == f(e, xs[i + 1]);
        assert forall e: Db, i :: 0 <= i < |ys[1..]| ==> g(e, ys[1..][i]) == g(e, ys[i + 1]);
        FoldAgree(f, g, d, xs[1..], ys[1..]);
      }
    }
  }

  /** `n` copies of `x`. */
  function Repeat<T>(x: T, n: nat): (xs: seq<T>)
    ensures |xs| == n && forall i :: 0 <= i < n ==> xs[i] == x
  {
    if n == 0 then [] else [x] + Repeat(x, n - 1)
  }

  /** Every command of `cs` succeeds with "OK" when applied to the
      corresponding store of `states`, producing the next one. */
  ghost predicate AllOk(cs: seq<Command>, states: seq<Db>) {
    |states| == |cs| + 1 &&
    forall i :: 0 <= i < |cs| ==> Step(states[i], cs[i]) == Next(states[i + 1], "OK")
  }

  /** A run whose every command succeeds with "OK", passing through the
      stores `states`, replies "OK" once per command and ends in the last
      of them. */
  lemma {:induction false} ExecuteAllOk(cs: seq<Command>, states: seq<Db>)
    requires AllOk(cs, states)
    ensures Execute(states[0], cs) == Trace(Repeat("OK", |cs|), states[|cs|], None)
    decreases |cs|
  {
    if cs != [] {
      assert AllOk(cs[1..], states[1..]);
      ExecuteAllOk(cs[1..], states[1..]);
      assert cs == [cs[0]] + cs[1..];
      FoldCons(Step, states[0], cs[0], cs[1..]);
    }
  }

  /** The stores a counter at `k` passes through when it starts at `m`
      and is incremented `n` times. */
  function Counter(db: Db, k: string, m: int, n: nat): seq<Db> {
    seq(n + 1, i => db[k := ShowInt(m + i)])
  }

  /** INCR on a counter holding the decimal form of `j` moves it to `j + 1`. */
  lemma IncrStepAt(db: Db, k: string, j: int)
    requires I64_MIN <= j < I64_MAX
    ensures Step(db[k := ShowInt(j)], Incr(k)) == Next(db[k := ShowInt(j + 1)], "OK")
  {
    IncrAfterIncr(db[k := ShowInt(j)], k, j);
    OverwriteTwice(db, k, ShowInt(j), ShowInt(j + 1));
  }

  lemma IncrSteps(db: Db, k: string, m: int, n: nat)
    requires I64_MIN <= m && m + n <= I64_MAX
    ensures AllOk(Repeat(Incr(k), n), Counter(db, k, m, n))
  {
    var cs, states := Repeat(Incr(k), n), Counter(db, k, m, n);
    assert |states| == n + 1;
    forall i | 0 <= i < n
      ensures Step(states[i], cs[i]) == Next(states[i + 1], "OK")
    {
      assert cs[i] == Incr(k);
      CounterStep(db, k, m, n, i);
    }
  }

  /** The `i`-th INCR moves the counter from its `i`-th store to the next. */
  lemma CounterStep(db: Db, k: string, m: int, n: nat, i: nat)
    requires I64_MIN <= m && m + n <= I64_MAX && i < n
    ensures Step(Counter(db, k, m, n)[i], Incr(k)) == Next(Counter(db, k, m, n)[i + 1], "OK")
  {
    var states := Counter(db, k, m, n);
    assert states[i] == db[k := ShowInt(m + i)];
    assert states[i + 1] == db[k := ShowInt(m + i + 1)];
    IncrStepAt(db, k, m + i);
  }

  /** `n` INCRs on a key holding the decimal form of `m` leave it holding
      the decimal form of `m + n`, each replying "OK". */
  lemma IncrFrom(db: Db, k: string, m: int, n: nat)
    requires k in db && db[k] == ShowInt(m) && I64_MIN <= m && m + n <= I64_MAX
    ensures Execute(db, Repeat(Incr(k), n)) == Trace(Repeat("OK", n), db[k := ShowInt(m + n)], None)
  {
    IncrSteps(db, k, m, n);
    ExecuteAllOk(Repeat(Incr(k), n), Counter(db, k, m, n));
    assert db[k := ShowInt(m)] == db;
  }

  /** `n` INCRs starting from an absent key leave it holding the decimal
      form of `n` (and leave it absent when `n` is zero). */
  lemma IncrCounts(db: Db, k: string, n: nat)
    requires k !in db && n <= I64_MAX
    ensures Execute(db, Repeat(Incr(k), n)) ==
      Trace(Repeat("OK", n), if n == 0 then db else db[k := ShowInt(n)], None)
  {
    if n > 0 {
      IncrAbsent(db, k);
      IncrFromOne(db, k, n - 1);
      ExecuteCons(db, Incr(k), Repeat(Incr(k), n - 1), db[k := "1"], "OK");
    }
  }

  /** The INCRs after the first one on an absent key. */
  lemma IncrFromOne(db: Db, k: string, n: nat)
    requires n < I64_MAX
    ensures Execute(db[k := "1"], Repeat(Incr(k), n)) == Trace(Repeat("OK", n), db[k := ShowInt(n + 1)], None)
  {
    OneIsShown();
    IncrFrom(db[k := "1"], k, 1, n);
    OverwriteTwice(db, k, "1", ShowInt(n + 1));
  }


  /** A first command that succeeds contributes its reply and hands its
      store to the rest of the run. */
  lemma ExecuteCons(db: Db, c: Command, cs: seq<Command>, d: Db, r: string)
    requires Step(db, c) == Next(d, r)
    ensures var t := Execute(d, cs);
      Execute(db, [c] + cs) == Trace([r] + t.replies, t.db, t.failure)
  {
    FoldCons(Step, db, c, cs);
  }

  lemma OneIsShown()
    ensures ShowInt(1) == "1"
  {
  }

  lemma OverwriteTwice(db: Db, k: string, x: string, y: string)
    ensures db[k := x][k := y] == db[k := y]
  {
  }
}
