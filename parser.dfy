/** The command grammar of the interpreter (src/main.rs:54-112).

    The source builds its parser from nom combinators with the unit error
    type, so a failure carries no information. The few combinators it uses
    are defined here directly over strings with their stated semantics:
    `tag` is a case-sensitive literal prefix, `space1` the longest non-empty
    run of spaces and tabs, `alphanumeric1` the longest non-empty run of
    ASCII letters and digits. `context` only labels errors and is dropped.
 */
module Parser {

  /** One parsed instruction. */
  datatype Command =
    | Set(key: string, value: string)
    | Get(key: string)
    | Del(key: string)
    | Incr(key: string)
    | Flush

  /** What a parser returns: the unconsumed remainder with the output, or a
      failure (nom's `IResult` with error type `()`). */
  datatype Parsed<T> = Done(rest: string, out: T) | Failed

  predicate IsSpace(c: char) {
    c == ' ' || c == '\t'
  }

  predicate IsAlphanumeric(c: char) {
    ('a' <= c <= 'z') || ('A' <= c <= 'Z') || ('0' <= c <= '9')
  }

  /** A separator: a non-empty run of spaces and tabs. */
  predicate Sep(w: string) {
    w != [] && forall i :: 0 <= i < |w| ==> IsSpace(w[i])
  }

  /** A key or value token: a non-empty run of ASCII letters and digits. */
  predicate Word(w: string) {
    w != [] && forall i :: 0 <= i < |w| ==> IsAlphanumeric(w[i])
  }

  /** The text after a token cannot continue that token. */
  predicate Boundary(rest: string) {
    rest == [] || !IsAlphanumeric(rest[0])
  }

  /** The literal keyword that introduces each command. */
  function Keyword(c: Command): string {
    match c
    case Set(_, _) => "SET"
    case Get(_) => "GET"
    case Del(_) => "DEL"
    case Incr(_) => "INCR"
    case Flush => "FLUSH"
  }

  /** Every key and value of a command is a token of the grammar. */
  predicate WellFormed(c: Command) {
    match c
    case Set(k, v) => Word(k) && Word(v)
    case Get(k) => Word(k)
    case Del(k) => Word(k)
    case Incr(k) => Word(k)
    case Flush => true
  }

  /** Length of the longest prefix of `s` whose characters all satisfy `p`. */
  function Span(p: char -> bool, s: string): (n: nat)
    ensures n <= |s|
    ensures forall i :: 0 <= i < n ==> p(s[i])
    ensures n == |s| || !p(s[n])
  {
    if s == [] || !p(s[0]) then 0 else 1 + Span(p, s[1..])
  }

  /** The longest non-empty prefix whose characters satisfy `p`; fails when
      the first character does not (or there is none). */
  function TakeWhile1(p: char -> bool, s: string): (r: Parsed<string>)
    ensures r.Done? <==> s != [] && p(s[0])
    ensures r.Done? ==> s == r.out + r.rest && r.out != []
    ensures r.Done? ==> forall i :: 0 <= i < |r.out| ==> p(r.out[i])
    ensures r.Done? ==> r.rest == [] || !p(r.rest[0])
  {
    var n := Span(p, s);
    if n == 0 then Failed else Done(s[n..], s[..n])
  }

  /** nom's `tag`: the literal `k` at the start of the input. */
  function Tag(k: string, s: string): (r: Parsed<string>)
    ensures r.Done? <==> k <= s
    ensures r.Done? ==> r.out == k && s == k + r.rest
  {
    if k <= s then Done(s[|k|..], k) else Failed
  }

  /** nom's `space1`. */
  function Space1(s: string): (r: Parsed<string>)
    ensures r.Done? ==> s == r.out + r.rest && Sep(r.out) && (r.rest == [] || !IsSpace(r.rest[0]))
    ensures r.Failed? <==> s == [] || !IsSpace(s[0])
  {
    TakeWhile1(IsSpace, s)
  }

  /** nom's `alphanumeric1`. */
  function Alphanumeric1(s: string): (r: Parsed<string>)
    ensures r.Done? ==> s == r.out + r.rest && Word(r.out) && Boundary(r.rest)
    ensures r.Failed? <==> s == [] || !IsAlphanumeric(s[0])
  {
    TakeWhile1(IsAlphanumeric, s)
  }

  /** The shared shape of parse_get, parse_delete and parse_incr:
      the tuple (tag(kw), space1, alphanumeric1). */
  function ParseKeywordArg(kw: string, s: string): (r: Parsed<(string, string, string)>)
    ensures r.Done? ==> r.out.0 == kw && s == kw + r.out.1 + r.out.2 + r.rest
  {
    match Tag(kw, s)
    case Failed => Failed
    case Done(s1, t) =>
      match Space1(s1)
      case Failed => Failed
      case Done(s2, sp) =>
        match Alphanumeric1(s2)
        case Failed => Failed
        case Done(s3, key) =>
          assert s == kw + sp + key + s3 by {
            assert s1 == sp + key + s3;
          }
          Done(s3, (t, sp, key))
  }

  /** parse_get: GET, a separator, the key, and a remainder that cannot
      extend the key. */
  function ParseGet(s: string): (r: Parsed<(string, string, string)>)
    ensures r.Done? ==> r.out.0 == "GET" && Sep(r.out.1) && Word(r.out.2) && Boundary(r.rest)
    ensures r.Done? ==> s == "GET" + r.out.1 + r.out.2 + r.rest
  {
    ParseKeywordArg("GET", s)
  }

  /** parse_delete: DEL, a separator, the key, and a remainder that
      cannot extend the key. */
  function ParseDelete(s: string): (r: Parsed<(string, string, string)>)
    ensures r.Done? ==> r.out.0 == "DEL" && Sep(r.out.1) && Word(r.out.2) && Boundary(r.rest)
    ensures r.Done? ==> s == "DEL" + r.out.1 + r.out.2 + r.rest
  {
    ParseKeywordArg("DEL", s)
  }

  /** parse_incr: INCR, a separator, the key, and a remainder that
      cannot extend the key. */
  function ParseIncr(s: string): (r: Parsed<(string, string, string)>)
    ensures r.Done? ==> r.out.0 == "INCR" && Sep(r.out.1) && Word(r.out.2) && Boundary(r.rest)
    ensures r.Done? ==> s == "INCR" + r.out.1 + r.out.2 + r.rest
  {
    ParseKeywordArg("INCR", s)
  }

  /** parse_flush: the bare keyword; it succeeds on every input that
      starts with FLUSH, whatever follows. */
  function ParseFlush(s: string): (r: Parsed<string>)
    ensures r.Done? <==> "FLUSH" <= s
    ensures r.Done? ==> s == "FLUSH" + r.rest
  {
    Tag("FLUSH", s)
  }

  /** parse_set: the tuple (tag("SET"), space1, alphanumeric1, space1, alphanumeric1);
      its first three parts are the shape of the one-argument rules. */
  function ParseSet(s: string): (r: Parsed<(string, string, string, string, string)>)
    ensures r.Done? ==> r.out.0 == "SET" && Sep(r.out.1) && Word(r.out.2) && Sep(r.out.3) && Word(r.out.4)
    ensures r.Done? ==> Boundary(r.rest)
    ensures r.Done? ==> s == "SET" + r.out.1 + r.out.2 + r.out.3 + r.out.4 + r.rest
  {
    var first := ParseKeywordArg("SET", s);
    if first.Failed? then Failed
    else
      var (t, sp1, key) := first.out;
      var sp := Space1(first.rest);
      if sp.Failed? then Failed
      else
        var val := Alphanumeric1(sp.rest);
        if val.Failed? then Failed
        else
          var front := "SET" + sp1 + key;
          AppendAssoc(sp.out, val.out, val.rest);
          AppendAssoc(front, sp.out + val.out, val.rest);
          AppendAssoc(front, sp.out, val.out);
          Done(val.rest, (t, sp1, key, sp.out, val.out))
  }

  lemma AppendAssoc<T>(a: seq<T>, b: seq<T>, c: seq<T>)
    ensures a + (b + c) == (a + b) + c
  {
  }

  /** parse_command: `alt` tries GET, SET, DEL, FLUSH, INCR in that order,
      the first rule that succeeds wins, and `map` turns its tuple into the
      command. There is no end-of-input check: whatever follows the match is
      the remainder. */
  function ParseCommand(s: string): (r: Parsed<Command>)
    ensures r.Done? ==> Keyword(r.out) <= s && WellFormed(r.out)
    ensures r.Done? ==> |r.rest| < |s| && s[|s| - |r.rest|..] == r.rest
    ensures r.Done? && !r.out.Flush? ==> Boundary(r.rest)
  {
    var asGet := ParseGet(s);
    if asGet.Done? then Done(asGet.rest, Get(asGet.out.2)) else
    var asSet := ParseSet(s);
    if asSet.Done? then Done(asSet.rest, Set(asSet.out.2, asSet.out.4)) else
    var asDel := ParseDelete(s);
    if asDel.Done? then Done(asDel.rest, Del(asDel.out.2)) else
    var asFlush := ParseFlush(s);
    if asFlush.Done? then Done(asFlush.rest, Flush) else
    var asIncr := ParseIncr(s);
    if asIncr.Done? then Done(asIncr.rest, Incr(asIncr.out.2)) else Failed
  }
}
