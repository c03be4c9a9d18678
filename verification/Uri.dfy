/**
 The two URI parsers: one written as a state machine over the characters, one that
 matches a regular expression and then scans the parameters. The grammar is the
 repository's own: type://path, then optionally ? and key=value pairs joined by &.
 */
module Uri {
  import opened Wrappers

  datatype Parsed = Parsed(kind: string, path: string, params: map<string, string>)

  type Pairs = seq<(string, string)>

  // ---- the regular expression -------------------------------------------------------

  predicate Alnum(c: char) { 'a' <= c <= 'z' || 'A' <= c <= 'Z' || '0' <= c <= '9' }

  predicate KindChar(c: char) { Alnum(c) || c == '-' }
  predicate PathChar(c: char) { Alnum(c) || c in "_/.:-" }
  predicate KeyChar(c: char) { Alnum(c) }
  predicate ValueChar(c: char) { Alnum(c) || c in "._/+-" }

  ghost const LOWER: set<char> :=
    {'a', 'b', 'c', 'd', 'e', 'f', 'g', 'h', 'i', 'j', 'k', 'l', 'm',
     'n', 'o', 'p', 'q', 'r', 's', 't', 'u', 'v', 'w', 'x', 'y', 'z'}
  ghost const UPPER: set<char> :=
    {'A', 'B', 'C', 'D', 'E', 'F', 'G', 'H', 'I', 'J', 'K', 'L', 'M',
     'N', 'O', 'P', 'Q', 'R', 'S', 'T', 'U', 'V', 'W', 'X', 'Y', 'Z'}
  ghost const DIGITS: set<char> := {'0', '1', '2', '3', '4', '5', '6', '7', '8', '9'}

  lemma {:induction false} AlnumIs(c: char)
    ensures Alnum(c) <==> c in LOWER || c in UPPER || c in DIGITS
  {
  }

  /** The four alphabets, character by character. */
  lemma {:induction false} AlphabetsAre(c: char)
    ensures KindChar(c) <==> c in LOWER + UPPER + DIGITS + {'-'}
    ensures PathChar(c) <==> c in LOWER + UPPER + DIGITS + {'_', '/', '.', ':', '-'}
    ensures KeyChar(c) <==> c in LOWER + UPPER + DIGITS
    ensures ValueChar(c) <==> c in LOWER + UPPER + DIGITS + {'.', '_', '/', '+', '-'}
  {
    AlnumIs(c);
  }

  predicate All(s: string, p: char -> bool) { forall i :: 0 <= i < |s| ==> p(s[i]) }

  predicate KeyValue(kv: (string, string)) {
    kv.0 != "" && All(kv.0, KeyChar) && kv.1 != "" && All(kv.1, ValueChar)
  }

  predicate AllPairs(kvs: Pairs) { forall i :: 0 <= i < |kvs| ==> KeyValue(kvs[i]) }

  /** (&key=value)* */
  function Tail(kvs: Pairs): string {
    if kvs == [] then "" else "&" + kvs[0].0 + "=" + kvs[0].1 + Tail(kvs[1..])
  }

  /** The parameter part: absent, or ? with an optional first pair and a tail. */
  datatype Query = NoQuery | Query(first: Option<(string, string)>, rest: Pairs)

  predicate QueryOk(q: Query) {
    q.Query? ==> (q.first.Some? ==> KeyValue(q.first.value)) && AllPairs(q.rest)
  }

  /** What follows the question mark. */
  function Body(q: Query): string
    requires q.Query?
  {
    (if q.first.Some? then q.first.value.0 + "=" + q.first.value.1 else "") + Tail(q.rest)
  }

  function QueryText(q: Query): string {
    if q.NoQuery? then "" else "?" + Body(q)
  }

  function Text(kind: string, path: string, q: Query): string {
    kind + "://" + path + QueryText(q)
  }

  /** The expression matches uri with these groups. */
  predicate Matches(uri: string, kind: string, path: string, q: Query) {
    && kind != "" && All(kind, KindChar)
    && path != "" && All(path, PathChar)
    && QueryOk(q)
    && uri == Text(kind, path, q)
  }

  // ---- the scan of the parameters after a match --------------------------------------

  datatype ArgState = ArgState(name: string, buf: string, params: map<string, string>)

  function ArgStep(st: ArgState, c: char): ArgState {
    if c == '&' then ArgState("", "", st.params[st.name := st.buf])
    else if c == '=' then st.(name := st.buf, buf := "")
    else st.(buf := st.buf + [c])
  }

  function ScanArgs(rest: string, st: ArgState): ArgState {
    if rest == "" then st else ScanArgs(rest[1..], ArgStep(st, rest[0]))
  }

  /** The loop of regexParse over the matched parameter text and a final &. */
  method RegexParams(args: string) returns (params: map<string, string>)
    ensures params == if args == "" then map[]
                      else ScanArgs(args[1..] + "&", ArgState("", "", map[])).params
  {
    params := map[];
    if args == "" { return; }
    var text := args + "&";
    var buf, name := "", "";
    assert text[1..] == args[1..] + "&";
    var i := 1;
    while i < |text|
      invariant 1 <= i <= |text|
      invariant ScanArgs(text[i..], ArgState(name, buf, params)) == ScanArgs(text[1..], ArgState("", "", map[]))
    {
      if text[i] == '&' {
        params := params[name := buf];
        buf, name := "", "";
      } else if text[i] == '=' {
        name, buf := buf, "";
      } else {
        buf := buf + [text[i]];
      }
      i := i + 1;
    }
  }

  function RegexResult(kind: string, path: string, q: Query): Parsed {
    Parsed(kind, path,
           if q.NoQuery? then map[] else ScanArgs(Body(q) + "&", ArgState("", "", map[])).params)
  }

  // ---- the state machine -------------------------------------------------------------

  datatype State = State(state: nat, kind: string, path: string, key: string, value: string,
                         params: map<string, string>)

  const START := State(0, "", "", "", "", map[])

  /** A character that is no separator goes to the string the state names. */
  function Append(st: State, c: char): State {
    match st.state
    case 0 => st.(kind := st.kind + [c])
    case 1 => st.(path := st.path + [c])
    case 2 => st.(key := st.key + [c])
    case _ => st.(value := st.value + [c])
  }

  /** An & or the end of the text. */
  function Close(st: State): Option<State> {
    if st.state == 3 then
      Some(st.(state := 2, params := st.params[st.key := st.value], key := "", value := ""))
    else if st.state == 1 then Some(st)
    else None
  }

  predicate Separator(rest: string) { |rest| >= 3 && rest[0] == ':' && rest[1] == '/' && rest[2] == '/' }

  /** The loop from a position on; None where the source stops the process. */
  function Scan(rest: string, st: State): Option<State> {
    if rest == "" then Close(st)
    else if Separator(rest) then
      if st.state == 0 then Scan(rest[3..], st.(state := 1)) else None
    else if rest[0] == '?' then
      if st.state == 1 then Scan(rest[1..], st.(state := 2)) else None
    else if rest[0] == '&' || rest[0] == '\0' then
      if Close(st).None? then None else Scan(rest[1..], Close(st).value)
    else if rest[0] == '=' then
      if st.state == 2 then Scan(rest[1..], st.(state := 3)) else None
    else Scan(rest[1..], Append(st, rest[0]))
  }

  function NoRegexResult(uri: string): Option<Parsed> {
    match Scan(uri, START)
    case None => None
    case Some(st) => Some(Parsed(st.kind, st.path, st.params))
  }

  /** noRegexParse: the loop over the characters and the terminating zero. */
  method NoRegexParse(uri: string) returns (r: Option<Parsed>)
    ensures r == NoRegexResult(uri)
  {
    var st := START;
    var i := 0;
    while i < |uri|
      invariant 0 <= i <= |uri| && Scan(uri[i..], st) == Scan(uri, START)
    {
      if i + 3 <= |uri| && uri[i] == ':' && uri[i + 1] == '/' && uri[i + 2] == '/' {
        if st.state != 0 { return None; }
        st := st.(state := 1);
        assert uri[i..][3..] == uri[i + 3..];
        i := i + 3;
      } else {
        assert uri[i..][1..] == uri[i + 1..];
        if uri[i] == '?' {
          if st.state != 1 { return None; }
          st := st.(state := 2);
        } else if uri[i] == '&' || uri[i] == '\0' {
          if Close(st).None? { return None; }
          st := Close(st).value;
        } else if uri[i] == '=' {
          if st.state != 2 { return None; }
          st := st.(state := 3);
        } else {
          st := Append(st, uri[i]);
        }
        i := i + 1;
      }
    }
    // the terminating zero
    if Close(st).None? { return None; }
    st := Close(st).value;
    r := Some(Parsed(st.kind, st.path, st.params));
  }

  // ---- the parameters: last value wins ------------------------------------------------

  function Put(params: map<string, string>, kvs: Pairs): map<string, string>
    decreases |kvs|
  {
    if kvs == [] then params else Put(params[kvs[0].0 := kvs[0].1], kvs[1..])
  }

  /** A key holds the value of its last pair. */
  lemma {:induction false} LastWins(params: map<string, string>, kvs: Pairs, i: nat)
    requires i < |kvs| && forall j :: i < j < |kvs| ==> kvs[j].0 != kvs[i].0
    ensures kvs[i].0 in Put(params, kvs) && Put(params, kvs)[kvs[i].0] == kvs[i].1
    decreases |kvs|
  {
    if i > 0 {
      LastWins(params[kvs[0].0 := kvs[0].1], kvs[1..], i - 1);
    } else {
      Untouched(params[kvs[0].0 := kvs[0].1], kvs[1..], kvs[0].0);
    }
  }

  lemma {:induction false} Untouched(params: map<string, string>, kvs: Pairs, k: string)
    requires k in params && forall j :: 0 <= j < |kvs| ==> kvs[j].0 != k
    ensures k in Put(params, kvs) && Put(params, kvs)[k] == params[k]
    decreases |kvs|
  {
    if kvs != [] { Untouched(params[kvs[0].0 := kvs[0].1], kvs[1..], k); }
  }

  lemma {:induction false} ArgsRun(s: string, r: string, st: ArgState)
    requires forall i :: 0 <= i < |s| ==> s[i] != '&' && s[i] != '='
    ensures ScanArgs(s + r, st) == ScanArgs(r, st.(buf := st.buf + s))
    decreases |s|
  {
    if s == "" {
      assert s + r == r && st.buf + s == st.buf;
    } else {
      assert (s + r)[1..] == s[1..] + r;
      ArgsRun(s[1..], r, st.(buf := st.buf + [s[0]]));
      assert st.buf + [s[0]] + s[1..] == st.buf + s;
    }
  }

  /** key=value read from an empty buffer. */
  lemma {:induction false} ArgsPair(kv: (string, string), r: string, params: map<string, string>)
    requires KeyValue(kv)
    ensures ScanArgs(kv.0 + "=" + kv.1 + r, ArgState("", "", params)) == ScanArgs(r, ArgState(kv.0, kv.1, params))
  {
    assert kv.0 + "=" + kv.1 + r == kv.0 + ("=" + (kv.1 + r));
    KeyValueChars(kv);
    ArgsRun(kv.0, "=" + (kv.1 + r), ArgState("", "", params));
    assert "" + kv.0 == kv.0 && "" + kv.1 == kv.1;
    ArgsEquals(kv.1 + r, ArgState("", kv.0, params));
    ArgsRun(kv.1, r, ArgState(kv.0, "", params));
  }

  lemma {:induction false} ArgsEquals(r: string, st: ArgState)
    ensures ScanArgs("=" + r, st) == ScanArgs(r, ArgState(st.buf, "", st.params))
  {
    assert ("=" + r)[1..] == r;
  }

  lemma KeyValueChars(kv: (string, string))
    requires KeyValue(kv)
    ensures forall i :: 0 <= i < |kv.0| ==> kv.0[i] != '&' && kv.0[i] != '='
    ensures forall i :: 0 <= i < |kv.1| ==> kv.1[i] != '&' && kv.1[i] != '='
  {
  }

  /** The tail of the parameters, from any pending pair. */
  lemma {:induction false} ArgsTail(kvs: Pairs, st: ArgState)
    requires AllPairs(kvs)
    ensures ScanArgs(Tail(kvs) + "&", st).params == Put(st.params[st.name := st.buf], kvs)
    decreases |kvs|
  {
    var params := st.params[st.name := st.buf];
    if kvs == [] {
      assert Tail(kvs) + "&" == "&" && "&"[1..] == "";
    } else {
      var after := kvs[0].0 + "=" + kvs[0].1 + (Tail(kvs[1..]) + "&");
      assert Tail(kvs) + "&" == "&" + after;
      assert ("&" + after)[1..] == after;
      ArgsPair(kvs[0], Tail(kvs[1..]) + "&", params);
      ArgsTail(kvs[1..], ArgState(kvs[0].0, kvs[0].1, params));
    }
  }

  /** The parameters the regexp parser returns; an absent first pair puts an empty key. */
  lemma {:induction false} RegexResultIs(kind: string, path: string, q: Query)
    requires QueryOk(q)
    ensures RegexResult(kind, path, q).params ==
      match q
      case NoQuery => map[]
      case Query(Some(kv), rest) => Put(map[], [kv] + rest)
      case Query(None, rest) => Put(map["" := ""], rest)
  {
    if q.Query? {
      var st := ArgState("", "", map[]);
      if q.first.Some? {
        var kv := q.first.value;
        assert Body(q) + "&" == kv.0 + "=" + kv.1 + (Tail(q.rest) + "&");
        ArgsPair(kv, Tail(q.rest) + "&", map[]);
        ArgsTail(q.rest, ArgState(kv.0, kv.1, map[]));
        assert ([kv] + q.rest)[1..] == q.rest;
      } else {
        assert Body(q) == Tail(q.rest);
        ArgsTail(q.rest, st);
      }
    }
  }

  // ---- what the state machine does on each part -----------------------------------------

  lemma {:induction false} ScanKind(t: string, r: string, st: State)
    requires All(t, KindChar) && st.state == 0
    ensures Scan(t + r, st) == Scan(r, st.(kind := st.kind + t))
    decreases |t|
  {
    if t == "" {
      assert t + r == r && st.kind + t == st.kind;
    } else {
      assert (t + r)[1..] == t[1..] + r;
      ScanKind(t[1..], r, st.(kind := st.kind + [t[0]]));
      assert st.kind + [t[0]] + t[1..] == st.kind + t;
    }
  }

  /** The path holds no :// of its own. */
  predicate Plain(p: string) { forall j :: 0 <= j < |p| ==> !Separator(p[j..]) }

  lemma {:induction false} ScanPath(p: string, r: string, st: State)
    requires All(p, PathChar) && st.state == 1 && (r == "" || r[0] == '?')
    ensures Scan(p + r, st) == if Plain(p) then Scan(r, st.(path := st.path + p)) else None
    decreases |p|
  {
    if p == "" {
      assert p + r == r && st.path + p == st.path;
    } else {
      assert (p + r)[1..] == p[1..] + r;
      assert Separator(p + r) <==> Separator(p[0..]);
      assert forall j :: 0 <= j < |p| - 1 ==> p[1..][j..] == p[j + 1..];
      assert Plain(p) <==> !Separator(p[0..]) && Plain(p[1..]) by {
        if !Separator(p[0..]) && Plain(p[1..]) {
          forall j | 0 <= j < |p| ensures !Separator(p[j..]) {
            if j > 0 { assert p[1..][j - 1..] == p[j..]; }
          }
        }
      }
      ScanPath(p[1..], r, st.(path := st.path + [p[0]]));
      assert st.path + [p[0]] + p[1..] == st.path + p;
    }
  }

  lemma {:induction false} ScanKey(k: string, r: string, st: State)
    requires All(k, KeyChar) && st.state == 2
    ensures Scan(k + r, st) == Scan(r, st.(key := st.key + k))
    decreases |k|
  {
    if k == "" {
      assert k + r == r && st.key + k == st.key;
    } else {
      assert (k + r)[1..] == k[1..] + r;
      ScanKey(k[1..], r, st.(key := st.key + [k[0]]));
      assert st.key + [k[0]] + k[1..] == st.key + k;
    }
  }

  lemma {:induction false} ScanValue(v: string, r: string, st: State)
    requires All(v, ValueChar) && st.state == 3
    ensures Scan(v + r, st) == Scan(r, st.(value := st.value + v))
    decreases |v|
  {
    if v == "" {
      assert v + r == r && st.value + v == st.value;
    } else {
      assert (v + r)[1..] == v[1..] + r;
      ScanValue(v[1..], r, st.(value := st.value + [v[0]]));
      assert st.value + [v[0]] + v[1..] == st.value + v;
    }
  }

  lemma {:induction false} ScanPair(kv: (string, string), r: string, st: State)
    requires KeyValue(kv) && st.state == 2 && st.key == "" && st.value == ""
    ensures Scan(kv.0 + "=" + kv.1 + r, st) == Scan(r, st.(state := 3, key := kv.0, value := kv.1))
  {
    assert kv.0 + "=" + kv.1 + r == kv.0 + ("=" + (kv.1 + r));
    ScanKey(kv.0, "=" + (kv.1 + r), st);
    assert "" + kv.0 == kv.0 && "" + kv.1 == kv.1;
    ScanEquals(kv.1 + r, st.(key := kv.0));
    ScanValue(kv.1, r, st.(key := kv.0, state := 3));
  }

  lemma {:induction false} ScanEquals(r: string, st: State)
    requires st.state == 2
    ensures Scan("=" + r, st) == Scan(r, st.(state := 3))
  {
    var after := "=" + r;
    assert after[1..] == r && !Separator(after);
  }

  lemma {:induction false} ScanTail(kvs: Pairs, st: State)
    requires AllPairs(kvs) && st.state == 3
    ensures Scan(Tail(kvs), st)
         == Some(st.(state := 2, key := "", value := "", params := Put(st.params[st.key := st.value], kvs)))
    decreases |kvs|
  {
    if kvs != [] {
      var after := kvs[0].0 + "=" + kvs[0].1 + Tail(kvs[1..]);
      assert Tail(kvs) == "&" + after;
      assert ("&" + after)[1..] == after && !Separator("&" + after);
      var closed := Close(st).value;
      ScanPair(kvs[0], Tail(kvs[1..]), closed);
      ScanTail(kvs[1..], closed.(state := 3, key := kvs[0].0, value := kvs[0].1));
    }
  }

  /** The parameter part: the state machine refuses a missing first pair. */
  lemma {:induction false} ScanQuery(q: Query, st: State)
    requires QueryOk(q) && st.state == 1 && st.key == "" && st.value == "" && st.params == map[]
    ensures q.NoQuery? ==> Scan(QueryText(q), st) == Some(st)
    ensures q.Query? && q.first.None? ==> Scan(QueryText(q), st) == None
    ensures q.Query? && q.first.Some? ==>
      Scan(QueryText(q), st) == Some(st.(state := 2, params := Put(map[], [q.first.value] + q.rest)))
  {
    if q.Query? {
      var open := st.(state := 2);
      assert QueryText(q)[1..] == Body(q) && !Separator(QueryText(q));
      assert Scan(QueryText(q), st) == Scan(Body(q), open);
      if q.first.Some? {
        var kv := q.first.value;
        assert Body(q) == kv.0 + "=" + kv.1 + Tail(q.rest);
        ScanPair(kv, Tail(q.rest), open);
        ScanTail(q.rest, open.(state := 3, key := kv.0, value := kv.1));
        assert ([kv] + q.rest)[1..] == q.rest;
      } else {
        assert Body(q) == Tail(q.rest);
      }
    }
  }

  /** On every URI the regexp accepts, the state machine returns the same result exactly
      when the path holds no :// and a question mark is followed by a pair; otherwise it
      stops the process. */
  lemma {:induction false} ParsersAgreeExactly(uri: string, kind: string, path: string, q: Query)
    requires Matches(uri, kind, path, q)
    ensures NoRegexResult(uri).Some? <==> Plain(path) && (q.NoQuery? || q.first.Some?)
    ensures NoRegexResult(uri).Some? ==> NoRegexResult(uri) == Some(RegexResult(kind, path, q))
  {
    TextSplit(kind, path, q);
    var rest := path + QueryText(q);
    ScanFront(kind, rest);
    var st := START.(kind := kind, state := 1);
    ScanPath(path, QueryText(q), st);
    assert "" + path == path;
    ScanQuery(q, st.(path := path));
    RegexResultIs(kind, path, q);
  }

  lemma {:induction false} TextSplit(kind: string, path: string, q: Query)
    ensures Text(kind, path, q) == kind + ("://" + (path + QueryText(q)))
  {
  }

  lemma {:induction false} ScanFront(kind: string, rest: string)
    requires All(kind, KindChar)
    ensures Scan(kind + ("://" + rest), START) == Scan(rest, START.(kind := kind, state := 1))
  {
    var after := "://" + rest;
    ScanKind(kind, after, START);
    assert "" + kind == kind;
    assert Separator(after) && after[3..] == rest;
  }

  // ---- the match is determined -------------------------------------------------------------

  /** How many characters from the start belong to an alphabet. */
  function Span(s: string, p: char -> bool): nat {
    if s == "" || !p(s[0]) then 0 else Span(s[1..], p) + 1
  }

  lemma {:induction false} SpanIs(a: string, b: string, p: char -> bool)
    requires All(a, p) && (b == "" || !p(b[0]))
    ensures Span(a + b, p) == |a|
  {
    if a == "" {
      assert a + b == b;
    } else {
      assert (a + b)[1..] == a[1..] + b;
      SpanIs(a[1..], b, p);
    }
  }

  /** The first character outside the alphabet ends the part. */
  lemma {:induction false} PrefixUnique(a: string, b: string, c: string, d: string, p: char -> bool)
    requires a + b == c + d && All(a, p) && All(c, p)
    requires (b == "" || !p(b[0])) && (d == "" || !p(d[0]))
    ensures a == c && b == d
  {
    SpanIs(a, b, p);
    SpanIs(c, d, p);
    assert a == (a + b)[..|a|] && c == (c + d)[..|c|];
    assert b == (a + b)[|a|..] && d == (c + d)[|c|..];
  }

  /** Type, path and parameter text are determined by the URI, so the result of the regexp
      parser does not depend on how the match was found. */
  lemma {:induction false} MatchUnique(uri: string, k1: string, p1: string, q1: Query,
    k2: string, p2: string, q2: Query)
    requires Matches(uri, k1, p1, q1) && Matches(uri, k2, p2, q2)
    ensures RegexResult(k1, p1, q1) == RegexResult(k2, p2, q2)
  {
    var r1, r2 := p1 + QueryText(q1), p2 + QueryText(q2);
    TextSplit(k1, p1, q1);
    TextSplit(k2, p2, q2);
    PrefixUnique(k1, "://" + r1, k2, "://" + r2, KindChar);
    SameRest(r1, r2);
    PrefixUnique(p1, QueryText(q1), p2, QueryText(q2), PathChar);
    SameBody(q1, q2);
  }

  lemma {:induction false} SameRest(r1: string, r2: string)
    requires "://" + r1 == "://" + r2
    ensures r1 == r2
  {
    assert r1 == ("://" + r1)[3..] && r2 == ("://" + r2)[3..];
  }

  lemma {:induction false} SameBody(q1: Query, q2: Query)
    requires QueryText(q1) == QueryText(q2)
    ensures q1.Query? <==> q2.Query?
    ensures q1.Query? ==> Body(q1) == Body(q2)
  {
    if q1.Query? && q2.Query? {
      assert Body(q1) == QueryText(q1)[1..] && Body(q2) == QueryText(q2)[1..];
    }
  }

  ghost function RegexParse(uri: string): Option<Parsed> {
    if exists kind, path, q :: Matches(uri, kind, path, q) then
      var kind, path, q :| Matches(uri, kind, path, q);
      Some(RegexResult(kind, path, q))
    else None
  }

  /** Both parsers invert printing: for every type, path without :// and list of pairs
      they return that type, that path and the last-wins map of the pairs. */
  lemma {:induction false} ParsersInvertPrinting(kind: string, path: string, kvs: Pairs)
    requires kind != "" && All(kind, KindChar) && path != "" && All(path, PathChar) && Plain(path) && AllPairs(kvs)
    ensures var q := if kvs == [] then NoQuery else Query(Some(kvs[0]), kvs[1..]);
      var expected := Some(Parsed(kind, path, Put(map[], kvs)));
      RegexParse(Text(kind, path, q)) == expected && NoRegexResult(Text(kind, path, q)) == expected
  {
    var q := if kvs == [] then NoQuery else Query(Some(kvs[0]), kvs[1..]);
    var uri := Text(kind, path, q);
    assert Matches(uri, kind, path, q);
    var k2, p2, q2 :| Matches(uri, k2, p2, q2) && RegexParse(uri) == Some(RegexResult(k2, p2, q2));
    MatchUnique(uri, kind, path, q, k2, p2, q2);
    RegexResultIs(kind, path, q);
    if kvs != [] { assert [kvs[0]] + kvs[1..] == kvs; }
    ParsersAgreeExactly(uri, kind, path, q);
  }
}
