/** Properties of the command grammar (src/main.rs:63-112): the parser
    accepts exactly the inputs the grammar derives, the keyword rules
    exclude each other, and trailing text is left as the remainder. */
module ParserProperties {
  import opened Parser

  /** `s` is keyword `kw`, a separator, the token `k`, then `rest`, where
      `rest` cannot extend the token. */
  ghost predicate OneArgument(kw: string, s: string, k: string, rest: string) {
    Word(k) && Boundary(rest) && exists sp :: Sep(sp) && s == kw + sp + k + rest
  }

  /** The grammar, written as a relation independent of the combinators:
      `s` spells command `c` followed by the unconsumed text `rest`. */
  ghost predicate Derives(s: string, c: Command, rest: string) {
    match c
    case Get(k) => OneArgument("GET", s, k, rest)
    case Del(k) => OneArgument("DEL", s, k, rest)
    case Incr(k) => OneArgument("INCR", s, k, rest)
    case Set(k, v) =>
      Word(k) && Word(v) && Boundary(rest) &&
      exists sp1, sp2 :: Sep(sp1) && Sep(sp2) && s == "SET" + sp1 + k + sp2 + v + rest
    case Flush => s == "FLUSH" + rest
  }

  /** A maximal run is taken whole: the combinator stops exactly where the
      run ends. */
  lemma TakeWhile1Exact(p: char -> bool, w: string, t: string)
    requires w != [] && forall i :: 0 <= i < |w| ==> p(w[i])
    requires t == [] || !p(t[0])
    ensures TakeWhile1(p, w + t) == Done(t, w)
  {
    var s := w + t;
    assert Span(p, s) == |w|;
    assert s[..|w|] == w && s[|w|..] == t;
  }

  lemma ConcatTag(kw: string, x: string)
    ensures Tag(kw, kw + x) == Done(x, kw)
  {
    assert kw <= kw + x;
    assert (kw + x)[|kw|..] == x;
  }

  /** What the shared one-argument shape returns is a separator, a token
      and a remainder that cannot extend the token. */
  lemma KeywordArgSound(kw: string, s: string)
    ensures var r := ParseKeywordArg(kw, s);
      r.Done? ==> Sep(r.out.1) && Word(r.out.2) && Boundary(r.rest)
  {
  }

  /** The one-argument rules accept keyword, separator and token. */
  lemma KeywordArgExact(kw: string, sp: string, k: string, rest: string)
    requires Sep(sp) && Word(k) && Boundary(rest)
    ensures ParseKeywordArg(kw, kw + sp + k + rest) == Done(rest, (kw, sp, k))
  {
    assert kw + sp + k + rest == kw + (sp + (k + rest));
    ConcatTag(kw, sp + (k + rest));
    assert (k + rest)[0] == k[0];
    TakeWhile1Exact(IsSpace, sp, k + rest);
    TakeWhile1Exact(IsAlphanumeric, k, rest);
  }

  lemma SetExact(sp1: string, k: string, sp2: string, v: string, rest: string)
    requires Sep(sp1) && Word(k) && Sep(sp2) && Word(v) && Boundary(rest)
    ensures ParseSet("SET" + sp1 + k + sp2 + v + rest) == Done(rest, ("SET", sp1, k, sp2, v))
  {
    var tail := sp2 + (v + rest);
    var front := "SET" + sp1 + k;
    AppendAssoc(sp2, v, rest);
    AppendAssoc(front, sp2 + v, rest);
    AppendAssoc(front, sp2, v);
    assert tail[0] == sp2[0];
    KeywordArgExact("SET", sp1, k, tail);
    assert (v + rest)[0] == v[0];
    TakeWhile1Exact(IsSpace, sp2, v + rest);
    TakeWhile1Exact(IsAlphanumeric, v, rest);
  }

  /** No keyword is a prefix of another: the five start with distinct letters. */
  lemma KeywordsDistinct(s: string, c: Command, d: Command)
    requires Keyword(c) <= s && Keyword(d) <= s
    ensures Keyword(c) == Keyword(d)
  {
    assert Keyword(c)[0] == s[0] == Keyword(d)[0];
  }

  /** `"GET" sp k rest` parses to `Get(k)` leaving `rest`. */
  lemma ParseGetShape(sp: string, k: string, rest: string)
    requires Sep(sp) && Word(k) && Boundary(rest)
    ensures ParseCommand("GET" + sp + k + rest) == Done(rest, Get(k))
  {
    KeywordArgExact("GET", sp, k, rest);
  }

  /** `"SET" sp1 k sp2 v rest` parses to `Set(k, v)` leaving `rest`: the
      GET rule, tried first, cannot match a line starting with `S`. */
  lemma ParseSetShape(sp1: string, k: string, sp2: string, v: string, rest: string)
    requires Sep(sp1) && Word(k) && Sep(sp2) && Word(v) && Boundary(rest)
    ensures ParseCommand("SET" + sp1 + k + sp2 + v + rest) == Done(rest, Set(k, v))
  {
    var s := "SET" + sp1 + k + sp2 + v + rest;
    SetExact(sp1, k, sp2, v, rest);
    assert s[0] == 'S';
    assert ParseGet(s).Failed?;
  }

  /** `"DEL" sp k rest` parses to `Del(k)` leaving `rest`. */
  lemma ParseDelShape(sp: string, k: string, rest: string)
    requires Sep(sp) && Word(k) && Boundary(rest)
    ensures ParseCommand("DEL" + sp + k + rest) == Done(rest, Del(k))
  {
    var s := "DEL" + sp + k + rest;
    KeywordArgExact("DEL", sp, k, rest);
    assert s[0] == 'D';
    assert ParseGet(s).Failed? && ParseSet(s).Failed?;
  }

  /** `"INCR" sp k rest` parses to `Incr(k)` leaving `rest`; INCR is the
      last rule tried. */
  lemma ParseIncrShape(sp: string, k: string, rest: string)
    requires Sep(sp) && Word(k) && Boundary(rest)
    ensures ParseCommand("INCR" + sp + k + rest) == Done(rest, Incr(k))
  {
    var s := "INCR" + sp + k + rest;
    KeywordArgExact("INCR", sp, k, rest);
    assert s[0] == 'I';
    assert ParseGet(s).Failed? && ParseSet(s).Failed? && ParseDelete(s).Failed? && ParseFlush(s).Failed?;
  }

  /** `"FLUSH" rest` parses to `Flush` whatever `rest` is: FLUSH takes no
      argument and nothing checks what follows it. */
  lemma ParseFlushShape(rest: string)
    ensures ParseCommand("FLUSH" + rest) == Done(rest, Flush)
  {
    var s := "FLUSH" + rest;
    ConcatTag("FLUSH", rest);
    assert s[0] == 'F';
    assert ParseGet(s).Failed? && ParseSet(s).Failed? && ParseDelete(s).Failed?;
  }

  /** Completeness: whatever the grammar derives, the parser returns, with
      the same remainder. */
  lemma ParseComplete(s: string, c: Command, rest: string)
    requires Derives(s, c, rest)
    ensures ParseCommand(s) == Done(rest, c)
  {
    match c
    case Get(k) =>
      var sp :| Sep(sp) && s == "GET" + sp + k + rest;
      ParseGetShape(sp, k, rest);
    case Set(k, v) =>
      var sp1, sp2 :| Sep(sp1) && Sep(sp2) && s == "SET" + sp1 + k + sp2 + v + rest;
      ParseSetShape(sp1, k, sp2, v, rest);
    case Del(k) =>
      var sp :| Sep(sp) && s == "DEL" + sp + k + rest;
      ParseDelShape(sp, k, rest);
    case Incr(k) =>
      var sp :| Sep(sp) && s == "INCR" + sp + k + rest;
      ParseIncrShape(sp, k, rest);
    case Flush =>
      ParseFlushShape(rest);
  }

  /** Soundness: every successful parse is a derivation of the grammar. */
  lemma ParseSound(s: string)
    ensures ParseCommand(s).Done? ==> Derives(s, ParseCommand(s).out, ParseCommand(s).rest)
  {
    var g, st, d, f, i := ParseGet(s), ParseSet(s), ParseDelete(s), ParseFlush(s), ParseIncr(s);
    if g.Done? {
      assert Sep(g.out.1) && s == "GET" + g.out.1 + g.out.2 + g.rest;
    } else if st.Done? {
      assert Sep(st.out.1) && Sep(st.out.3) && s == "SET" + st.out.1 + st.out.2 + st.out.3 + st.out.4 + st.rest;
    } else if d.Done? {
      assert Sep(d.out.1) && s == "DEL" + d.out.1 + d.out.2 + d.rest;
    } else if f.Done? {
    } else if i.Done? {
      assert Sep(i.out.1) && s == "INCR" + i.out.1 + i.out.2 + i.rest;
    }
  }

  /** The parser and the grammar agree on every input. */
  lemma ParseIff(s: string, c: Command, rest: string)
    ensures ParseCommand(s) == Done(rest, c) <==> Derives(s, c, rest)
  {
    ParseSound(s);
    if Derives(s, c, rest) {
      ParseComplete(s, c, rest);
    }
  }

  /** The grammar is unambiguous: one input derives at most one command
      and one remainder. */
  lemma DerivesUnique(s: string, c: Command, rest: string, c': Command, rest': string)
    requires Derives(s, c, rest) && Derives(s, c', rest')
    ensures c == c' && rest == rest'
  {
    ParseComplete(s, c, rest);
    ParseComplete(s, c', rest');
  }

  /** No partial commands: the parser fails exactly when no command and
      remainder derive the input. */
  lemma FailsIffNoDerivation(s: string)
    ensures ParseCommand(s).Failed? <==> forall c, rest :: !Derives(s, c, rest)
  {
    ParseSound(s);
    forall c, rest | Derives(s, c, rest)
      ensures ParseCommand(s).Done?
    {
      ParseComplete(s, c, rest);
    }
  }

  /** How many of the five `alt` branches succeed on `s`. */
  function SucceedingRules(s: string): nat {
    (if ParseGet(s).Done? then 1 else 0) + (if ParseSet(s).Done? then 1 else 0) +
    (if ParseDelete(s).Done? then 1 else 0) + (if ParseFlush(s).Done? then 1 else 0) +
    (if ParseIncr(s).Done? then 1 else 0)
  }

  /** Keyword matching is mutually exclusive: at most one branch of `alt`
      can succeed, so the order of the branches does not change the result. */
  lemma RulesExclusive(s: string)
    ensures SucceedingRules(s) <= 1
  {
    if s != [] {
      var c := s[0];
      assert ParseGet(s).Done? ==> c == 'G';
      assert ParseSet(s).Done? ==> c == 'S';
      assert ParseDelete(s).Done? ==> c == 'D';
      assert ParseFlush(s).Done? ==> c == 'F';
      assert ParseIncr(s).Done? ==> c == 'I';
    }
  }

  lemma ExampleGet()
    ensures ParseCommand("GET foo") == Done("", Get("foo"))
  {
    assert Sep(" ");
    assert "GET foo" == "GET" + " " + "foo" + "";
    ParseGetShape(" ", "foo", "");
  }

  /** Extra tokens after a complete command are left as the remainder. */
  lemma ExampleTrailing()
    ensures ParseCommand("GET a b") == Done(" b", Get("a"))
  {
    assert Sep(" ");
    assert "GET a b" == "GET" + " " + "a" + " b";
    ParseGetShape(" ", "a", " b");
  }

  lemma ExampleSet()
    ensures ParseCommand("SET a b") == Done("", Set("a", "b"))
  {
    assert Sep(" ");
    assert "SET a b" == "SET" + " " + "a" + " " + "b" + "";
    ParseSetShape(" ", "a", " ", "b", "");
  }

  /** Separators are runs of spaces and tabs; punctuation ends a token. */
  lemma ExampleSeparators()
    ensures ParseCommand("SET\tk1  v2!") == Done("!", Set("k1", "v2"))
  {
    assert Sep("\t") && Sep("  ");
    assert "SET\tk1  v2!" == "SET" + "\t" + "k1" + "  " + "v2" + "!";
    ParseSetShape("\t", "k1", "  ", "v2", "!");
  }

  lemma ExampleDel()
    ensures ParseCommand("DEL a") == Done("", Del("a"))
  {
    assert Sep(" ");
    assert "DEL a" == "DEL" + " " + "a" + "";
    ParseDelShape(" ", "a", "");
  }

  lemma ExampleIncr()
    ensures ParseCommand("INCR n") == Done("", Incr("n"))
  {
    assert Sep(" ");
    assert "INCR n" == "INCR" + " " + "n" + "";
    ParseIncrShape(" ", "n", "");
  }

  lemma ExampleFlush()
    ensures ParseCommand("FLUSH") == Done("", Flush)
    ensures ParseCommand("FLUSHALL") == Done("ALL", Flush)
  {
    ParseFlushShape("");
    assert "FLUSH" + "" == "FLUSH";
    ParseFlushShape("ALL");
    assert "FLUSH" + "ALL" == "FLUSHALL";
  }

  /** A missing value is a failure, not a partial command. */
  lemma ExampleMissingValue()
    ensures ParseCommand("SET a") == Failed
  {
    assert Sep(" ");
    KeywordArgExact("SET", " ", "a", "");
    assert "SET" + " " + "a" + "" == "SET a";
    assert Space1("") == Failed;
    assert ParseSet("SET a").Failed?;
    assert "SET a"[0] == 'S';
    assert ParseGet("SET a").Failed? && ParseDelete("SET a").Failed?;
    assert ParseFlush("SET a").Failed? && ParseIncr("SET a").Failed?;
  }

  /** A keyword glued to its argument is a failure. */
  lemma ExampleGlued()
    ensures ParseCommand("GETx") == Failed
  {
    ConcatTag("GET", "x");
    assert "GET" + "x" == "GETx";
  }

  /** A keyword with a separator but no argument is a failure. */
  lemma ExampleBareKeyword()
    ensures ParseCommand("DEL ") == Failed
  {
    ConcatTag("DEL", " ");
    assert "DEL" + " " == "DEL ";
    TakeWhile1Exact(IsSpace, " ", "");
    assert " " + "" == " ";
    assert ParseDelete("DEL ").Failed?;
    assert "DEL "[0] == 'D';
  }

  /** Keywords are case-sensitive and an unknown keyword is a failure. */
  lemma ExampleUnknownKeyword()
    ensures ParseCommand("FOO bar") == Failed
    ensures ParseCommand("get a") == Failed
  {
    assert "FOO bar"[0] == 'F' && "FOO bar"[1] == 'O';
    assert "get a"[0] == 'g';
  }
}
