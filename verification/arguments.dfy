/**
 The `-key=value` argument parser of the create command. It is a state
 machine over the whitespace tokens of the command: a token that starts with
 `-` and holds `=` opens a new key (flushing the previous one), a value whose
 first character is a quote keeps absorbing tokens until one ends in a quote,
 and any other token is appended to the open key's value or dropped when no
 key is open.
 */
module Arguments {
  import opened Text

  /** A token that opens a key: it starts with `-` and contains `=`. */
  predicate IsKeyToken(arg: string) {
    |arg| > 0 && arg[0] == '-' && '=' in arg
  }

  /** The position of the first `=`. */
  function EqIndex(arg: string): (i: nat)
    requires '=' in arg
    ensures i < |arg| && arg[i] == '='
    ensures forall k :: 0 <= k < i ==> arg[k] != '='
  {
    if arg[0] == '=' then 0 else 1 + EqIndex(arg[1..])
  }

  /** The token `-k=v`. */
  function KeyToken(k: string, v: string): string {
    "-" + k + "=" + v
  }

  /** The lower-cased key of a key token: the text between `-` and the first `=`. */
  function KeyOf(arg: string): string
    requires IsKeyToken(arg)
  {
    Lower(arg[1..EqIndex(arg)])
  }

  /** Everything after the first `=`. */
  function ValueOf(arg: string): string
    requires '=' in arg
  {
    arg[EqIndex(arg) + 1..]
  }

  predicate EndsWithQuote(s: string) {
    |s| > 0 && s[|s| - 1] == '"'
  }

  predicate StartsWithQuote(s: string) {
    |s| > 0 && s[0] == '"'
  }

  /**
   The parser's variables between two tokens. The open key is `key`; the empty
   key stands for "no key", because the source tests the key for truthiness,
   which is false both for "none yet" and for a key token with nothing between
   `-` and `=`.
   */
  datatype ParseState = ParseState(parsed: map<string, string>, key: string, value: seq<string>, inQuotes: bool)

  const Start: ParseState := ParseState(map[], "", [], false)

  /** A value's tokens joined with single spaces, with quote characters stripped from both ends. */
  function Assembled(value: seq<string>): string {
    StripQuotes(JoinWith(value, " "))
  }

  /** The result map once the open key, if any, has been stored. */
  function Flushed(st: ParseState): map<string, string> {
    if st.key != "" then st.parsed[st.key := Assembled(st.value)] else st.parsed
  }

  /** One iteration of the parser's loop. */
  function Step(st: ParseState, arg: string): ParseState {
    if IsKeyToken(arg) then
      // The value collected so far is reset only when a key was actually stored.
      var value := if st.key != "" then [] else st.value;
      var raw := ValueOf(arg);
      var inQuotes := StartsWithQuote(raw) || st.inQuotes;
      var part := if StartsWithQuote(raw) then raw[1..] else raw;
      if inQuotes && EndsWithQuote(part) then
        ParseState(Flushed(st), KeyOf(arg), value + [part[..|part| - 1]], false)
      else
        ParseState(Flushed(st), KeyOf(arg), value + [part], inQuotes)
    else if st.inQuotes then
      if EndsWithQuote(arg) then
        st.(value := st.value + [arg[..|arg| - 1]], inQuotes := false)
      else
        st.(value := st.value + [arg])
    else if st.key != "" then
      st.(value := st.value + [arg])
    else
      st
  }

  /** The state after the tokens `args`, starting from `st`. */
  function Run(st: ParseState, args: seq<string>): ParseState
    decreases |args|
  {
    if args == [] then st else Step(Run(st, args[..|args| - 1]), args[|args| - 1])
  }

  /** The keys that the key tokens of `args` name. */
  function KeysIn(args: seq<string>): set<string> {
    set i | 0 <= i < |args| && IsKeyToken(args[i]) :: KeyOf(args[i])
  }

  /** The keys the parser knows about after `args`: those stored and the open one. */
  function KnownKeys(st: ParseState): set<string> {
    st.parsed.Keys + (if st.key != "" then {st.key} else {})
  }

  predicate LowerKeys(st: ParseState) {
    IsLower(st.key) && forall k :: k in st.parsed ==> IsLower(k)
  }

  lemma KeysInSnoc(args: seq<string>, arg: string)
    ensures KeysIn(args + [arg]) == KeysIn(args) + (if IsKeyToken(arg) then {KeyOf(arg)} else {})
  {
    var a := args + [arg];
    forall k | k in KeysIn(a) ensures k in KeysIn(args) + (if IsKeyToken(arg) then {KeyOf(arg)} else {}) {
      var i :| 0 <= i < |a| && IsKeyToken(a[i]) && KeyOf(a[i]) == k;
      if i < |args| {
        assert a[i] == args[i];
      }
    }
    forall k | k in KeysIn(args) ensures k in KeysIn(a) {
      var i :| 0 <= i < |args| && IsKeyToken(args[i]) && KeyOf(args[i]) == k;
      assert a[i] == args[i];
    }
    if IsKeyToken(arg) {
      assert a[|args|] == arg;
    }
  }

  /** One token adds the key it names, if any and non-empty, to the known keys; keys stay lower-case. */
  lemma StepKeys(st: ParseState, arg: string)
    requires "" !in st.parsed && LowerKeys(st)
    ensures "" !in Step(st, arg).parsed && LowerKeys(Step(st, arg))
    ensures KnownKeys(Step(st, arg)) == KnownKeys(st) + ((if IsKeyToken(arg) then {KeyOf(arg)} else {}) - {""})
  {
    if IsKeyToken(arg) {
      LowerIsLower(arg[1..EqIndex(arg)]);
      var st' := Step(st, arg);
      assert st'.parsed == Flushed(st) && st'.key == KeyOf(arg);
      assert Flushed(st).Keys == KnownKeys(st);
    }
  }

  /** Every non-empty key named by a key token is known, and nothing else is. */
  lemma {:induction false} RunKeys(args: seq<string>)
    ensures "" !in Run(Start, args).parsed
    ensures KnownKeys(Run(Start, args)) == KeysIn(args) - {""}
    ensures LowerKeys(Run(Start, args))
    decreases |args|
  {
    if args != [] {
      var init := args[..|args| - 1];
      var arg := args[|args| - 1];
      RunKeys(init);
      assert init + [arg] == args;
      KeysInSnoc(init, arg);
      StepKeys(Run(Start, init), arg);
    }
  }

  /**
   `parse_arguments`: the keys of the result are exactly the non-empty keys
   the key tokens name, all lower-case.
   */
  function ParseArguments(args: seq<string>): (r: map<string, string>)
    ensures r.Keys == KeysIn(args) - {""}
    ensures forall k :: k in r ==> IsLower(k)
  {
    RunKeys(args);
    Flushed(Run(Start, args))
  }

  lemma {:induction false} RunAppend(st: ParseState, a: seq<string>, b: seq<string>)
    ensures Run(st, a + b) == Run(Run(st, a), b)
    decreases |b|
  {
    if b == [] {
      assert a + b == a;
    } else {
      assert (a + b)[..|a + b| - 1] == a + b[..|b| - 1];
      RunAppend(st, a, b[..|b| - 1]);
    }
  }

  /** Tokens that are not key tokens leave the initial state as it is. */
  lemma {:induction false} StrayTokensIgnored(stray: seq<string>)
    requires forall i :: 0 <= i < |stray| ==> !IsKeyToken(stray[i])
    ensures Run(Start, stray) == Start
    decreases |stray|
  {
    if stray != [] {
      StrayTokensIgnored(stray[..|stray| - 1]);
    }
  }

  /** Tokens seen before the first key token are dropped. */
  lemma StrayPrefixDropped(stray: seq<string>, args: seq<string>)
    requires forall i :: 0 <= i < |stray| ==> !IsKeyToken(stray[i])
    ensures ParseArguments(stray + args) == ParseArguments(args)
  {
    RunAppend(Start, stray, args);
    StrayTokensIgnored(stray);
  }

  /** No key token names the empty key. */
  predicate NoEmptyKey(args: seq<string>) {
    forall i :: 0 <= i < |args| ==> IsKeyToken(args[i]) ==> KeyOf(args[i]) != ""
  }

  /** Without an open key nothing is collected and no quote is open. */
  predicate Settled(st: ParseState) {
    st.key == "" ==> st.value == [] && !st.inQuotes
  }

  lemma {:induction false} RunSettled(args: seq<string>)
    requires NoEmptyKey(args)
    ensures Settled(Run(Start, args))
    decreases |args|
  {
    if args != [] {
      RunSettled(args[..|args| - 1]);
    }
  }

  /**
   A repeated key is overwritten: a final `-key=value` token stores its value,
   quotes stripped, under its key, on top of what the tokens before it gave,
   provided no key token before it names the empty key. This holds even when
   a quote is still open: a key token is recognised before the open quote is
   looked at, so it ends the quoted value.
   */
  lemma LastKeyWins(args: seq<string>, tok: string)
    requires NoEmptyKey(args)
    requires IsKeyToken(tok) && KeyOf(tok) != ""
    ensures ParseArguments(args + [tok]) == ParseArguments(args)[KeyOf(tok) := StripQuotes(ValueOf(tok))]
  {
    var a := args + [tok];
    assert a[..|a| - 1] == args;
    var st := Run(Start, args);
    assert Run(Start, a) == Step(st, tok);
    RunSettled(args);
    KeyStep(st, tok);
  }

  /** From a settled state, a key token stores its value, quotes stripped, under its key once flushed. */
  lemma KeyStep(st: ParseState, tok: string)
    requires Settled(st)
    requires IsKeyToken(tok) && KeyOf(tok) != ""
    ensures Flushed(Step(st, tok)) == Flushed(st)[KeyOf(tok) := StripQuotes(ValueOf(tok))]
  {
    var raw := ValueOf(tok);
    var part := if StartsWithQuote(raw) then raw[1..] else raw;
    var x := if (StartsWithQuote(raw) || st.inQuotes) && EndsWithQuote(part) then part[..|part| - 1] else part;
    KeyStepParts(st, tok, part, x);
    var after := Step(st, tok);
    calc {
      Flushed(after);
      after.parsed[after.key := Assembled(after.value)];
      Flushed(st)[KeyOf(tok) := Assembled([x])];
      { assert JoinWith([x], " ") == x; }
      Flushed(st)[KeyOf(tok) := StripQuotes(x)];
      { EdgeQuotes(raw, part, x); }
      Flushed(st)[KeyOf(tok) := StripQuotes(raw)];
    }
  }

  /** The state a key token leaves behind a settled state: the earlier pairs flushed, its key open with one word. */
  lemma KeyStepParts(st: ParseState, tok: string, part: string, x: string)
    requires Settled(st)
    requires IsKeyToken(tok)
    requires part == if StartsWithQuote(ValueOf(tok)) then ValueOf(tok)[1..] else ValueOf(tok)
    requires x == if (StartsWithQuote(ValueOf(tok)) || st.inQuotes) && EndsWithQuote(part) then part[..|part| - 1] else part
    ensures Step(st, tok).parsed == Flushed(st) && Step(st, tok).key == KeyOf(tok) && Step(st, tok).value == [x]
  {
    var value := if st.key != "" then [] else st.value;
    assert value == [];
  }

  /** Taking a leading quote and then a trailing quote off a value does not change its quote-stripped form. */
  lemma EdgeQuotes(raw: string, part: string, x: string)
    requires part == if StartsWithQuote(raw) then raw[1..] else raw
    requires x == part || (EndsWithQuote(part) && x == part[..|part| - 1])
    ensures StripQuotes(x) == StripQuotes(raw)
  {
    if StartsWithQuote(raw) {
      StripDropFirst(raw, IsQuote);
    }
    if x != part {
      StripDropLast(part, IsQuote);
    }
  }

  /**
   A key with its value written as a group of words, either quoted,
   `-key="w1`, `w2`, ..., `wn"`, or plain, `-key=w1`, `w2`, ..., `wn`, where
   the words after the key token are appended to the open key's value.
   */
  datatype Pair = Pair(key: string, words: seq<string>, quoted: bool)

  /**
   The quoted form of a pair (a single `-key="w"` token when there is one
   word). With `closed` false the closing quote is left off.
   */
  function QuotedTokens(p: Pair, closed: bool): seq<string>
    requires |p.words| >= 1
  {
    var ws := p.words;
    var n := |ws|;
    if n == 1 then
      [KeyToken(p.key, "\"" + ws[0] + (if closed then "\"" else ""))]
    else
      [KeyToken(p.key, "\"" + ws[0])] + ws[1..n - 1] + [ws[n - 1] + (if closed then "\"" else "")]
  }

  /** The plain form of a pair: `-key=w1` followed by the other words as they are. */
  function PlainTokens(p: Pair): seq<string>
    requires |p.words| >= 1
  {
    [KeyToken(p.key, p.words[0])] + p.words[1..]
  }

  /** The tokens of a pair in the form it asks for, quoted groups closed. */
  function GroupTokens(p: Pair): seq<string>
    requires |p.words| >= 1
  {
    if p.quoted then QuotedTokens(p, true) else PlainTokens(p)
  }

  /** A pair either form can carry: a lower-case key without `=`, words without quotes that do not open keys. */
  predicate GoodPair(p: Pair) {
    && p.key != "" && IsLower(p.key) && '=' !in p.key
    && |p.words| >= 1
    && forall i :: 0 <= i < |p.words| ==> QuoteFree(p.words[i]) && !IsKeyToken(p.words[i])
  }

  /** `-k=v` opens key `k` with raw value `v` when `k` is a non-empty lower-case key without `=`. */
  lemma KeyTokenParts(k: string, v: string)
    requires k != "" && IsLower(k) && '=' !in k
    ensures IsKeyToken(KeyToken(k, v))
    ensures KeyOf(KeyToken(k, v)) == k
    ensures ValueOf(KeyToken(k, v)) == v
  {
    var t := KeyToken(k, v);
    assert t[1 + |k|] == '=';
    assert forall j :: 0 <= j < 1 + |k| ==> t[j] == (if j == 0 then '-' else k[j - 1]);
    assert EqIndex(t) == 1 + |k|;
    assert t[1..1 + |k|] == k;
    LowerOfLower(k);
    assert t[2 + |k|..] == v;
  }

  /** Middle words of a quoted value are appended while the quote stays open. */
  lemma {:induction false} RunInsideQuotes(st: ParseState, ws: seq<string>)
    requires st.inQuotes
    requires forall i :: 0 <= i < |ws| ==> QuoteFree(ws[i]) && !IsKeyToken(ws[i])
    ensures Run(st, ws) == st.(value := st.value + ws)
    decreases |ws|
  {
    if ws == [] {
      assert st.value + ws == st.value;
    } else {
      var init := ws[..|ws| - 1];
      RunInsideQuotes(st, init);
      var w := ws[|ws| - 1];
      assert !EndsWithQuote(w);
      assert st.value + init + [w] == st.value + ws;
    }
  }

  lemma QuoteAppended(w: string)
    ensures EndsWithQuote(w + "\"") && (w + "\"")[..|w|] == w
  {
  }

  lemma ClosingWord(w: string)
    requires QuoteFree(w) && !IsKeyToken(w)
    ensures !IsKeyToken(w + "\"")
  {
  }

  /** Running a single token is one step of the loop. */
  lemma RunOne(st: ParseState, arg: string)
    ensures Run(st, [arg]) == Step(st, arg)
  {
    assert [arg][..0] == [];
  }

  /** The opening token `-key="w` (or `-key="w"`) of a quoted group. */
  lemma OpeningToken(st: ParseState, k: string, w: string, closed: bool)
    requires Settled(st) && !st.inQuotes
    requires k != "" && IsLower(k) && '=' !in k && QuoteFree(w)
    ensures Step(st, KeyToken(k, "\"" + w + (if closed then "\"" else "")))
            == ParseState(Flushed(st), k, [w], !closed)
  {
    if closed {
      OpeningClosed(st, k, w);
    } else {
      assert "\"" + w + "" == "\"" + w;
      OpeningOpen(st, k, w);
    }
  }

  lemma OpeningClosed(st: ParseState, k: string, w: string)
    requires Settled(st) && !st.inQuotes
    requires k != "" && IsLower(k) && '=' !in k && QuoteFree(w)
    ensures Step(st, KeyToken(k, "\"" + w + "\"")) == ParseState(Flushed(st), k, [w], false)
  {
    var raw := "\"" + w + "\"";
    KeyTokenParts(k, raw);
    assert StartsWithQuote(raw) && raw[1..] == w + "\"";
    QuoteAppended(w);
  }

  lemma OpeningOpen(st: ParseState, k: string, w: string)
    requires Settled(st) && !st.inQuotes
    requires k != "" && IsLower(k) && '=' !in k && QuoteFree(w)
    ensures Step(st, KeyToken(k, "\"" + w)) == ParseState(Flushed(st), k, [w], true)
  {
    var raw := "\"" + w;
    KeyTokenParts(k, raw);
    assert StartsWithQuote(raw) && raw[1..] == w;
    assert !EndsWithQuote(w);
  }

  /** The closing token `w"` (or `w` when the quote is left open) of a quoted group. */
  lemma ClosingToken(st: ParseState, w: string, closed: bool)
    requires st.inQuotes
    requires QuoteFree(w) && !IsKeyToken(w)
    ensures Step(st, w + (if closed then "\"" else "")) == st.(value := st.value + [w], inQuotes := !closed)
  {
    if closed {
      ClosingWord(w);
      QuoteAppended(w);
    } else {
      assert w + "" == w;
      assert !EndsWithQuote(w);
    }
  }

  /**
   Reading one quoted group from a settled state with no quote open stores
   the previous key and leaves the new key open with exactly the group's words;
   the quote is closed exactly when the group closes it.
   */
  lemma RunPair(st: ParseState, p: Pair, closed: bool)
    requires Settled(st) && !st.inQuotes
    requires GoodPair(p)
    ensures Run(st, QuotedTokens(p, closed)) == ParseState(Flushed(st), p.key, p.words, !closed)
  {
    var ws := p.words;
    var n := |ws|;
    if n == 1 {
      RunOne(st, QuotedTokens(p, closed)[0]);
      OpeningToken(st, p.key, ws[0], closed);
    } else {
      RunLongPair(st, p, closed);
    }
  }

  lemma RunLongPair(st: ParseState, p: Pair, closed: bool)
    requires Settled(st) && !st.inQuotes
    requires GoodPair(p) && |p.words| >= 2
    ensures Run(st, QuotedTokens(p, closed)) == ParseState(Flushed(st), p.key, p.words, !closed)
  {
    var ws := p.words;
    var first := KeyToken(p.key, "\"" + ws[0]);
    var rest := ws[1..|ws| - 1] + [ws[|ws| - 1] + (if closed then "\"" else "")];
    var s1 := ParseState(Flushed(st), p.key, [ws[0]], true);
    LongQuotedTokens(p, closed);
    assert QuotedTokens(p, closed) == [first] + rest;
    OpenRun(st, p.key, ws[0]);
    QuotedTail(s1, ws, closed);
    RunAppend(st, [first], rest);
  }

  /** After the opening token, the rest of a quoted group of two or more words. */
  lemma QuotedTail(s1: ParseState, ws: seq<string>, closed: bool)
    requires |ws| >= 2 && s1.inQuotes && s1.value == [ws[0]]
    requires forall i :: 0 <= i < |ws| ==> QuoteFree(ws[i]) && !IsKeyToken(ws[i])
    ensures Run(s1, ws[1..|ws| - 1] + [ws[|ws| - 1] + (if closed then "\"" else "")])
            == s1.(value := ws, inQuotes := !closed)
  {
    var n := |ws|;
    var last := ws[n - 1] + (if closed then "\"" else "");
    var s2 := s1.(value := ws[..n - 1]);
    calc {
      Run(s1, ws[1..n - 1] + [last]);
      { RunAppend(s1, ws[1..n - 1], [last]); }
      Run(Run(s1, ws[1..n - 1]), [last]);
      { QuotedMiddle(s1, ws); }
      Run(s2, [last]);
      { CloseRun(s2, ws[n - 1], closed); }
      s2.(value := ws[..n - 1] + [ws[n - 1]], inQuotes := !closed);
      { assert ws[..n - 1] + [ws[n - 1]] == ws; }
      s1.(value := ws, inQuotes := !closed);
    }
  }

  lemma LongQuotedTokens(p: Pair, closed: bool)
    requires |p.words| >= 2
    ensures QuotedTokens(p, closed)
            == [KeyToken(p.key, "\"" + p.words[0])] + p.words[1..|p.words| - 1]
               + [p.words[|p.words| - 1] + (if closed then "\"" else "")]
  {
  }

  /** The opening token `-key="w` of a quoted group as a run of one token. */
  lemma OpenRun(st: ParseState, k: string, w: string)
    requires Settled(st) && !st.inQuotes
    requires k != "" && IsLower(k) && '=' !in k && QuoteFree(w)
    ensures Run(st, [KeyToken(k, "\"" + w)]) == ParseState(Flushed(st), k, [w], true)
  {
    RunOne(st, KeyToken(k, "\"" + w));
    OpeningOpen(st, k, w);
  }

  /** The closing token of a quoted group as a run of one token. */
  lemma CloseRun(st: ParseState, w: string, closed: bool)
    requires st.inQuotes
    requires QuoteFree(w) && !IsKeyToken(w)
    ensures Run(st, [w + (if closed then "\"" else "")]) == st.(value := st.value + [w], inQuotes := !closed)
  {
    RunOne(st, w + (if closed then "\"" else ""));
    ClosingToken(st, w, closed);
  }

  /** The middle words of a quoted group are appended while its quote stays open. */
  lemma QuotedMiddle(s1: ParseState, ws: seq<string>)
    requires |ws| >= 2 && s1.inQuotes && s1.value == [ws[0]]
    requires forall i :: 0 <= i < |ws| ==> QuoteFree(ws[i]) && !IsKeyToken(ws[i])
    ensures Run(s1, ws[1..|ws| - 1]) == s1.(value := ws[..|ws| - 1])
  {
    var mid := ws[1..|ws| - 1];
    forall i | 0 <= i < |mid| ensures QuoteFree(mid[i]) && !IsKeyToken(mid[i]) {
      assert mid[i] == ws[i + 1];
    }
    RunInsideQuotes(s1, mid);
    assert [ws[0]] + mid == ws[..|ws| - 1];
  }

  /** Outside quotes, with a key open, words that open no key are appended to its value. */
  lemma {:induction false} RunOutsideQuotes(st: ParseState, ws: seq<string>)
    requires !st.inQuotes && st.key != ""
    requires forall i :: 0 <= i < |ws| ==> !IsKeyToken(ws[i])
    ensures Run(st, ws) == st.(value := st.value + ws)
    decreases |ws|
  {
    if ws == [] {
      assert st.value + ws == st.value;
    } else {
      var init := ws[..|ws| - 1];
      RunOutsideQuotes(st, init);
      assert st.value + init + [ws[|ws| - 1]] == st.value + ws;
    }
  }

  /**
   Reading one plain group from a settled state with no quote open stores the
   previous key and leaves the new key open with exactly the group's words.
   */
  lemma RunPlain(st: ParseState, p: Pair)
    requires Settled(st) && !st.inQuotes
    requires GoodPair(p)
    ensures Run(st, PlainTokens(p)) == ParseState(Flushed(st), p.key, p.words, false)
  {
    var ws := p.words;
    var first := KeyToken(p.key, ws[0]);
    PlainOpening(st, p.key, ws[0]);
    PlainRest(ParseState(Flushed(st), p.key, [ws[0]], false), ws);
    RunAppend(st, [first], ws[1..]);
  }

  /** The opening token `-key=w` of a plain group. */
  lemma PlainOpening(st: ParseState, k: string, w: string)
    requires Settled(st) && !st.inQuotes
    requires k != "" && IsLower(k) && '=' !in k && QuoteFree(w)
    ensures Run(st, [KeyToken(k, w)]) == ParseState(Flushed(st), k, [w], false)
  {
    RunOne(st, KeyToken(k, w));
    KeyTokenParts(k, w);
    assert !StartsWithQuote(w);
  }

  /** The words after the opening token of a plain group extend the value to all the group's words. */
  lemma PlainRest(s1: ParseState, ws: seq<string>)
    requires |ws| >= 1 && s1.key != "" && !s1.inQuotes && s1.value == [ws[0]]
    requires forall i :: 0 <= i < |ws| ==> !IsKeyToken(ws[i])
    ensures Run(s1, ws[1..]) == s1.(value := ws)
  {
    forall i | 0 <= i < |ws[1..]| ensures !IsKeyToken(ws[1..][i]) {
      assert ws[1..][i] == ws[i + 1];
    }
    RunOutsideQuotes(s1, ws[1..]);
    assert [ws[0]] + ws[1..] == ws;
  }

  /** Reading one group, in either form, leaves its key open with its words and no quote open. */
  lemma RunGroup(st: ParseState, p: Pair)
    requires Settled(st) && !st.inQuotes
    requires GoodPair(p)
    ensures Run(st, GroupTokens(p)) == ParseState(Flushed(st), p.key, p.words, false)
  {
    if p.quoted {
      RunPair(st, p, true);
    } else {
      RunPlain(st, p);
    }
  }

  /** The tokens of several groups, quoted or plain, in order. */
  function PairsTokens(pairs: seq<Pair>): seq<string>
    requires forall i :: 0 <= i < |pairs| ==> GoodPair(pairs[i])
    decreases |pairs|
  {
    if pairs == [] then []
    else
      var p := pairs[|pairs| - 1];
      assert GoodPair(p);
      PairsTokens(pairs[..|pairs| - 1]) + GroupTokens(p)
  }

  /** The map the pairs denote, a later pair overwriting an earlier one with the same key. */
  function PairsMap(pairs: seq<Pair>): map<string, string>
    decreases |pairs|
  {
    if pairs == [] then map[]
    else PairsMap(pairs[..|pairs| - 1])[pairs[|pairs| - 1].key := JoinWith(pairs[|pairs| - 1].words, " ")]
  }

  lemma {:induction false} JoinQuoteFree(ws: seq<string>)
    requires forall i :: 0 <= i < |ws| ==> QuoteFree(ws[i])
    ensures QuoteFree(JoinWith(ws, " "))
    decreases |ws|
  {
    if |ws| >= 2 {
      JoinQuoteFree(ws[1..]);
      var j := JoinWith(ws[1..], " ");
      assert JoinWith(ws, " ") == ws[0] + " " + j;
      forall k | 0 <= k < |JoinWith(ws, " ")| ensures JoinWith(ws, " ")[k] != '"' {
        if k < |ws[0]| {
        } else if k > |ws[0]| {
          assert JoinWith(ws, " ")[k] == j[k - |ws[0]| - 1];
        }
      }
    }
  }

  lemma AssembledWords(p: Pair)
    requires GoodPair(p)
    ensures Assembled(p.words) == JoinWith(p.words, " ")
  {
    JoinQuoteFree(p.words);
    QuoteFreeStripQuotes(JoinWith(p.words, " "));
  }

  /** The state the groups leave: settled, no quote open, and flushing it gives their map. */
  lemma PairsState(st: ParseState, pairs: seq<Pair>)
    requires forall i :: 0 <= i < |pairs| ==> GoodPair(pairs[i])
    requires pairs == [] ==> st == Start
    requires pairs != [] ==>
               st == ParseState(PairsMap(pairs[..|pairs| - 1]), pairs[|pairs| - 1].key, pairs[|pairs| - 1].words, false)
    ensures Settled(st) && !st.inQuotes && Flushed(st) == PairsMap(pairs)
  {
    if pairs != [] {
      AssembledWords(pairs[|pairs| - 1]);
    }
  }

  lemma {:induction false} RunPairs(pairs: seq<Pair>)
    requires forall i :: 0 <= i < |pairs| ==> GoodPair(pairs[i])
    ensures pairs == [] ==> Run(Start, PairsTokens(pairs)) == Start
    ensures pairs != [] ==>
              Run(Start, PairsTokens(pairs))
              == ParseState(PairsMap(pairs[..|pairs| - 1]), pairs[|pairs| - 1].key, pairs[|pairs| - 1].words, false)
    decreases |pairs|
  {
    if pairs != [] {
      var init := pairs[..|pairs| - 1];
      var p := pairs[|pairs| - 1];
      assert forall i :: 0 <= i < |init| ==> init[i] == pairs[i];
      var st := Run(Start, PairsTokens(init));
      RunPairs(init);
      PairsState(st, init);
      calc {
        Run(Start, PairsTokens(pairs));
        Run(Start, PairsTokens(init) + GroupTokens(p));
        { RunAppend(Start, PairsTokens(init), GroupTokens(p)); }
        Run(st, GroupTokens(p));
        { RunGroup(st, p); }
        ParseState(Flushed(st), p.key, p.words, false);
      }
    }
  }

  /**
   Round trip: key/value pairs written as groups, each quoted or plain, parse
   back to the map they denote, values joined with single spaces, the last
   pair winning on a repeated key.
   */
  lemma ParsePairs(pairs: seq<Pair>)
    requires forall i :: 0 <= i < |pairs| ==> GoodPair(pairs[i])
    ensures ParseArguments(PairsTokens(pairs)) == PairsMap(pairs)
  {
    FlushedPairs(pairs);
  }

  /** After the groups the parser is settled, no quote is open, and flushing gives their map. */
  lemma FlushedPairs(pairs: seq<Pair>)
    requires forall i :: 0 <= i < |pairs| ==> GoodPair(pairs[i])
    ensures Settled(Run(Start, PairsTokens(pairs))) && !Run(Start, PairsTokens(pairs)).inQuotes
    ensures Flushed(Run(Start, PairsTokens(pairs))) == PairsMap(pairs)
  {
    RunPairs(pairs);
    PairsState(Run(Start, PairsTokens(pairs)), pairs);
  }

  /** A final quoted group whose closing quote never comes still yields its value. */
  lemma ParseUnterminated(pairs: seq<Pair>, p: Pair)
    requires forall i :: 0 <= i < |pairs| ==> GoodPair(pairs[i])
    requires GoodPair(p)
    ensures ParseArguments(PairsTokens(pairs) + QuotedTokens(p, false)) == PairsMap(pairs + [p])
  {
    var st := Run(Start, PairsTokens(pairs));
    var open := ParseState(PairsMap(pairs), p.key, p.words, true);
    assert Run(Start, PairsTokens(pairs) + QuotedTokens(p, false)) == open by {
      FlushedPairs(pairs);
      RunAppend(Start, PairsTokens(pairs), QuotedTokens(p, false));
      RunPair(st, p, false);
    }
    UnterminatedFlush(pairs, p, open);
  }

  lemma UnterminatedFlush(pairs: seq<Pair>, p: Pair, open: ParseState)
    requires GoodPair(p)
    requires open == ParseState(PairsMap(pairs), p.key, p.words, true)
    ensures Flushed(open) == PairsMap(pairs + [p])
  {
    AssembledWords(p);
    assert (pairs + [p])[..|pairs|] == pairs;
  }

  /** Two groups parse to the map of their two keys, the second one winning on a shared key. */
  lemma ParseTwo(pq: Pair, pc: Pair)
    requires GoodPair(pq) && GoodPair(pc)
    ensures ParseArguments(GroupTokens(pq) + GroupTokens(pc))
      == map[pq.key := JoinWith(pq.words, " ")][pc.key := JoinWith(pc.words, " ")]
  {
    TwoTokens(pq, pc);
    TwoMap(pq, pc);
    ParsePairs([pq, pc]);
  }

  lemma TwoTokens(pq: Pair, pc: Pair)
    requires GoodPair(pq) && GoodPair(pc)
    ensures PairsTokens([pq, pc]) == GroupTokens(pq) + GroupTokens(pc)
  {
    assert [pq, pc][..1] == [pq] && [pq][..0] == [];
    assert PairsTokens([pq]) == [] + GroupTokens(pq);
  }

  lemma TwoMap(pq: Pair, pc: Pair)
    ensures PairsMap([pq, pc]) == map[pq.key := JoinWith(pq.words, " ")][pc.key := JoinWith(pc.words, " ")]
  {
    assert [pq, pc][..1] == [pq] && [pq][..0] == [];
    assert PairsMap([pq]) == PairsMap([])[pq.key := JoinWith(pq.words, " ")];
  }

  lemma ParseTwoAs(pq: Pair, pc: Pair, args: seq<string>, m: map<string, string>)
    requires GoodPair(pq) && GoodPair(pc)
    requires args == GroupTokens(pq) + GroupTokens(pc)
    requires m == map[pq.key := JoinWith(pq.words, " ")][pc.key := JoinWith(pc.words, " ")]
    ensures ParseArguments(args) == m
  {
    ParseTwo(pq, pc);
  }

  /** The tokens of `-q="Best lang?" -c="Go, Rust, C++"` parse to the question and the choice string. */
  lemma ParseExample()
    ensures ParseArguments(["-q=\"Best", "lang?\"", "-c=\"Go,", "Rust,", "C++\""])
      == map["q" := "Best lang?", "c" := "Go, Rust, C++"]
  {
    var pq := Pair("q", ["Best", "lang?"], true);
    var pc := Pair("c", ["Go,", "Rust,", "C++"], true);
    ExampleTokens();
    ExampleWords();
    ParseTwoAs(pq, pc, ["-q=\"Best", "lang?\"", "-c=\"Go,", "Rust,", "C++\""], map["q" := "Best lang?", "c" := "Go, Rust, C++"]);
  }

  lemma ExampleTokens()
    ensures GroupTokens(Pair("q", ["Best", "lang?"], true)) + GroupTokens(Pair("c", ["Go,", "Rust,", "C++"], true))
      == ["-q=\"Best", "lang?\"", "-c=\"Go,", "Rust,", "C++\""]
  {
    ChoiceTokens();
    assert KeyToken("q", "\"" + "Best") == "-q=\"Best";
    assert "lang?" + "\"" == "lang?\"";
  }

  lemma PlainExampleTokens()
    ensures GroupTokens(Pair("q", ["Best", "lang?"], false)) + GroupTokens(Pair("c", ["Go,", "Rust,", "C++"], true))
      == ["-q=Best", "lang?", "-c=\"Go,", "Rust,", "C++\""]
  {
    ChoiceTokens();
    assert KeyToken("q", "Best") == "-q=Best";
    assert ["Best", "lang?"][1..] == ["lang?"];
  }

  lemma ChoiceTokens()
    ensures GroupTokens(Pair("c", ["Go,", "Rust,", "C++"], true)) == ["-c=\"Go,", "Rust,", "C++\""]
  {
    assert KeyToken("c", "\"" + "Go,") == "-c=\"Go,";
    assert "C++" + "\"" == "C++\"";
    assert ["Go,", "Rust,", "C++"][1..2] == ["Rust,"];
  }

  lemma ExampleWords()
    ensures JoinWith(["Best", "lang?"], " ") == "Best lang?"
    ensures JoinWith(["Go,", "Rust,", "C++"], " ") == "Go, Rust, C++"
  {
    var ws := ["Go,", "Rust,", "C++"];
    assert JoinWith(ws[2..], " ") == "C++";
    assert JoinWith(ws[1..], " ") == "Rust, C++";
  }

  /** Unquoted words after a key token continue its value: `-q=Best lang? -c="Go, Rust, C++"`. */
  lemma ParsePlainExample()
    ensures ParseArguments(["-q=Best", "lang?", "-c=\"Go,", "Rust,", "C++\""])
      == map["q" := "Best lang?", "c" := "Go, Rust, C++"]
  {
    var pq := Pair("q", ["Best", "lang?"], false);
    var pc := Pair("c", ["Go,", "Rust,", "C++"], true);
    PlainExampleTokens();
    ExampleWords();
    ParseTwoAs(pq, pc, ["-q=Best", "lang?", "-c=\"Go,", "Rust,", "C++\""], map["q" := "Best lang?", "c" := "Go, Rust, C++"]);
  }

  /** The tokens of a quoted group name no empty key: only the first is a key token, and it names the group's key. */
  lemma QuotedNoEmptyKey(p: Pair, closed: bool)
    requires GoodPair(p)
    ensures NoEmptyKey(QuotedTokens(p, closed))
  {
    var ws := p.words;
    var suffix := if closed then "\"" else "";
    if |ws| == 1 {
      KeyTokenParts(p.key, "\"" + ws[0] + suffix);
    } else {
      KeyTokenParts(p.key, "\"" + ws[0]);
      LongQuotedTokens(p, closed);
      QuotedRestNotKeys(p, closed);
    }
  }

  /** In a quoted group of two or more words, no token after the first is a key token. */
  lemma QuotedRestNotKeys(p: Pair, closed: bool)
    requires GoodPair(p) && |p.words| >= 2
    ensures forall i :: 0 < i < |QuotedTokens(p, closed)| ==> !IsKeyToken(QuotedTokens(p, closed)[i])
  {
    var ws := p.words;
    var n := |ws|;
    var suffix := if closed then "\"" else "";
    var toks := QuotedTokens(p, closed);
    LongQuotedTokens(p, closed);
    forall i | 0 < i < |toks| ensures !IsKeyToken(toks[i]) {
      if i < n - 1 {
        assert toks[i] == ws[i];
      } else {
        assert toks[i] == ws[n - 1] + suffix;
        if closed {
          ClosingWord(ws[n - 1]);
        } else {
          assert ws[n - 1] + suffix == ws[n - 1];
        }
      }
    }
  }

  /**
   A key token right after a quoted group whose closing quote has not come
   yet ends that group's value and stores its own: the group's key gets its
   words so far, the new key its value.
   */
  lemma KeyAfterOpenQuote(p: Pair, tok: string)
    requires GoodPair(p)
    requires IsKeyToken(tok) && KeyOf(tok) != ""
    ensures ParseArguments(QuotedTokens(p, false) + [tok])
      == map[p.key := JoinWith(p.words, " ")][KeyOf(tok) := StripQuotes(ValueOf(tok))]
  {
    ParseUnterminated([], p);
    assert PairsTokens([]) + QuotedTokens(p, false) == QuotedTokens(p, false);
    assert [] + [p] == [p];
    QuotedNoEmptyKey(p, false);
    LastKeyWins(QuotedTokens(p, false), tok);
  }

  /**
   A key-shaped token inside an open quoted value ends that value and opens
   its own key: `-q="What is -x=y?"` gives `q` = `What is` and `x` = `y?`.
   */
  lemma KeyTokenEndsQuote()
    ensures ParseArguments(["-q=\"What", "is", "-x=y?\""]) == map["q" := "What is", "x" := "y?"]
  {
    var pq := Pair("q", ["What", "is"], true);
    var tok := "-x=y?\"";
    QuoteEndExampleParts();
    KeyAfterOpenQuote(pq, tok);
  }

  lemma QuoteEndExampleParts()
    ensures QuotedTokens(Pair("q", ["What", "is"], true), false) + ["-x=y?\""] == ["-q=\"What", "is", "-x=y?\""]
    ensures GoodPair(Pair("q", ["What", "is"], true))
    ensures IsKeyToken("-x=y?\"") && KeyOf("-x=y?\"") == "x" && StripQuotes(ValueOf("-x=y?\"")) == "y?"
    ensures JoinWith(["What", "is"], " ") == "What is"
  {
    ExampleOpenTokens();
    ExampleWhatIs();
    ExampleKeyX();
  }

  lemma ExampleOpenTokens()
    ensures QuotedTokens(Pair("q", ["What", "is"], true), false) + ["-x=y?\""] == ["-q=\"What", "is", "-x=y?\""]
  {
    assert KeyToken("q", "\"" + "What") == "-q=\"What";
    assert "is" + "" == "is";
  }

  lemma ExampleWhatIs()
    ensures GoodPair(Pair("q", ["What", "is"], true))
    ensures JoinWith(["What", "is"], " ") == "What is"
  {
  }

  lemma ExampleKeyX()
    ensures IsKeyToken("-x=y?\"") && KeyOf("-x=y?\"") == "x" && StripQuotes(ValueOf("-x=y?\"")) == "y?"
  {
    KeyTokenParts("x", "y?\"");
    assert KeyToken("x", "y?\"") == "-x=y?\"";
    StripYQuote("y?\"");
  }

  lemma StripYQuote(v: string)
    requires v == "y?\""
    ensures StripQuotes(v) == "y?"
  {
    StripDropLast(v, IsQuote);
    assert v[..2] == "y?";
    QuoteFreeStripQuotes("y?");
  }

  /**
   A key token with nothing between `-` and `=` opens no key, yet what it
   collects is not discarded: the next key token keeps it, so `-=v -k=w`
   stores `v w` under `k`.
   */
  lemma EmptyKeyValueCarriesOver(v: string, k: char, w: string)
    requires 'a' <= k <= 'z'
    requires v != [] && v[0] != '"' && '=' !in v
    requires w != [] && w[0] != '"' && w[|w| - 1] != '"' && '=' !in w
    ensures ParseArguments(["-=" + v, ['-', k, '='] + w]) == map[[k] := v + " " + w]
  {
    var t0, t1 := "-=" + v, ['-', k, '='] + w;
    var st0 := ParseState(map[], "", [v], false);
    calc {
      Run(Start, [t0, t1]);
      { assert [t0, t1][..1] == [t0]; }
      Step(Run(Start, [t0]), t1);
      { RunOne(Start, t0); EmptyKeyToken(v); }
      Step(st0, t1);
      { KeyAfterEmpty(v, k, w); }
      ParseState(map[], [k], [v, w], false);
    }
    assert JoinWith([v, w], " ") == v + " " + w;
    BareStripIsIdentity(v + " " + w, IsQuote);
  }

  /** `-=v` opens no key but collects `v`. */
  lemma EmptyKeyToken(v: string)
    requires v != [] && v[0] != '"'
    ensures Step(Start, "-=" + v) == ParseState(map[], "", [v], false)
  {
    var t0 := "-=" + v;
    assert EqIndex(t0) == 1 && t0[1..1] == [] && ValueOf(t0) == v;
    assert KeyOf(t0) == [];
  }

  /** `-k=w` after `-=v` opens `k` and keeps `v` in front of `w`. */
  lemma KeyAfterEmpty(v: string, k: char, w: string)
    requires 'a' <= k <= 'z'
    requires w != [] && w[0] != '"'
    ensures Step(ParseState(map[], "", [v], false), ['-', k, '='] + w) == ParseState(map[], [k], [v, w], false)
  {
    var t1 := ['-', k, '='] + w;
    assert t1[2] == '=' && EqIndex(t1) == 2 && t1[1..2] == [k] && ValueOf(t1) == w;
    LowerOfLower([k]);
  }
}
