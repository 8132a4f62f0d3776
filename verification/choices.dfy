/**
 The choice splitter behind `-c="..."`: one pass over the string, a double
 quote toggles the in-quotes flag and is never copied, a comma outside quotes
 ends the current choice (trimmed) and the whitespace right after it is
 skipped, and a choice still open at the end is kept only when something was
 collected for it. Empty choices between two commas are kept.
 */
module Choices {
  import opened Text

  /**
   The loop of the splitter from one state on: `s` is the unread input and
   `current` the characters collected for the open choice; the result is the
   choices the loop still appends. Each of them is trimmed and holds no quote
   character.
   */
  function Scan(s: string, inQuotes: bool, current: string): (r: seq<string>)
    requires QuoteFree(current)
    ensures forall k :: 0 <= k < |r| ==> QuoteFree(r[k]) && IsTrimmed(r[k])
    decreases |s|
  {
    if s == [] then
      if current != [] then
        StripKeepsQuoteFree(current, IsSpace);
        [Trim(current)]
      else
        []
    else if s[0] == '"' then
      Scan(s[1..], !inQuotes, current)
    else if s[0] == ',' && !inQuotes then
      StripKeepsQuoteFree(current, IsSpace);
      [Trim(current)] + Scan(TrimLeft(s[1..]), inQuotes, [])
    else
      Scan(s[1..], inQuotes, current + [s[0]])
  }

  /** `split_choices`: every choice it returns is trimmed and free of quote characters. */
  function SplitChoices(s: string): (r: seq<string>)
    ensures forall k :: 0 <= k < |r| ==> QuoteFree(r[k]) && IsTrimmed(r[k])
  {
    Scan(s, false, [])
  }

  /** How one choice is written so that the splitter reads it back: quoted when it holds a comma. */
  function Render(c: string): string {
    if ',' in c then "\"" + c + "\"" else c
  }

  /** The choices written one after another, separated by `sep`. */
  function Encode(cs: seq<string>, sep: string): string
    decreases |cs|
  {
    if |cs| == 0 then []
    else if |cs| == 1 then Render(cs[0])
    else Render(cs[0]) + sep + Encode(cs[1..], sep)
  }

  /** A separator the splitter accepts: a comma followed only by whitespace. */
  predicate IsSeparator(sep: string) {
    |sep| >= 1 && sep[0] == ',' && AllSpace(sep[1..])
  }

  /** A choice the encoding can carry: no quote characters and no whitespace at either end. */
  predicate Encodable(c: string) {
    QuoteFree(c) && IsTrimmed(c)
  }

  /** Characters that are neither quotes nor, outside quotes, commas are only collected. */
  lemma {:induction false} ScanPlain(c: string, t: string, inQuotes: bool, current: string)
    requires QuoteFree(c) && QuoteFree(current)
    requires inQuotes || ',' !in c
    ensures QuoteFree(current + c)
    ensures Scan(c + t, inQuotes, current) == Scan(t, inQuotes, current + c)
    decreases |c|
  {
    if c == [] {
      assert c + t == t;
      assert current + c == current;
    } else {
      assert (c + t)[0] == c[0];
      assert (c + t)[1..] == c[1..] + t;
      assert current + [c[0]] + c[1..] == current + c;
      ScanPlain(c[1..], t, inQuotes, current + [c[0]]);
    }
  }

  lemma ScanRender(c: string, t: string, current: string)
    requires QuoteFree(c) && QuoteFree(current)
    ensures QuoteFree(current + c)
    ensures Scan(Render(c) + t, false, current) == Scan(t, false, current + c)
  {
    if ',' in c {
      var s := "\"" + c + "\"" + t;
      assert s[0] == '"';
      assert s[1..] == c + ("\"" + t);
      ScanPlain(c, "\"" + t, true, current);
      assert ("\"" + t)[1..] == t;
    } else {
      ScanPlain(c, t, false, current);
    }
  }

  lemma ScanSeparator(sep: string, t: string, current: string)
    requires IsSeparator(sep) && QuoteFree(current)
    requires t == [] || !IsSpace(t[0])
    ensures Scan(sep + t, false, current) == [Trim(current)] + Scan(t, false, [])
  {
    assert (sep + t)[0] == ',';
    assert (sep + t)[1..] == sep[1..] + t;
    TrimLeftSpaces(sep[1..], t);
  }

  /** An encoding of at least one choice, the last one non-empty, never starts with whitespace. */
  lemma EncodeStart(cs: seq<string>, sep: string)
    requires |cs| >= 1 && cs[|cs| - 1] != []
    requires Encodable(cs[0])
    requires IsSeparator(sep)
    ensures Encode(cs, sep) != [] && !IsSpace(Encode(cs, sep)[0])
  {
    var c := cs[0];
    var e := Encode(cs, sep);
    if |cs| == 1 {
      assert e == Render(c) && c != [];
    } else {
      assert e == Render(c) + sep + Encode(cs[1..], sep);
    }
    if ',' in c {
      assert Render(c)[0] == '"';
      assert e[0] == '"';
    } else if c != [] {
      assert Render(c) == c;
      assert e[0] == c[0];
    } else {
      assert |cs| >= 2;
      assert e[0] == ',';
    }
  }

  /** The last choice, optionally followed by a separator, is read back on its own. */
  lemma ScanLast(c: string, tail: string)
    requires c != [] && Encodable(c)
    requires tail == [] || IsSeparator(tail)
    ensures Scan(Render(c) + tail, false, []) == [c]
  {
    if tail == [] {
      ScanLastEnd(c);
    } else {
      ScanLastSeparator(c, tail);
    }
  }

  lemma ScanLastEnd(c: string)
    requires c != [] && Encodable(c)
    ensures Scan(Render(c) + [], false, []) == [c]
  {
    calc {
      Scan(Render(c) + [], false, []);
      { ScanRender(c, [], []); assert [] + c == c; }
      Scan([], false, c);
      [Trim(c)];
      { BareStripIsIdentity(c, IsSpace); }
      [c];
    }
  }

  lemma ScanLastSeparator(c: string, tail: string)
    requires c != [] && Encodable(c)
    requires IsSeparator(tail)
    ensures Scan(Render(c) + tail, false, []) == [c]
  {
    calc {
      Scan(Render(c) + tail, false, []);
      { ScanRender(c, tail, []); assert [] + c == c; }
      Scan(tail, false, c);
      { ScanSeparator(tail, [], c); assert tail + [] == tail; }
      [Trim(c)] + Scan([], false, []);
      { BareStripIsIdentity(c, IsSpace); }
      [c];
    }
  }

  /** A choice followed by a separator is read as that choice, then whatever follows. */
  lemma ScanFirst(c: string, sep: string, rest: string)
    requires Encodable(c) && IsSeparator(sep)
    requires rest == [] || !IsSpace(rest[0])
    ensures Scan(Render(c) + (sep + rest), false, []) == [c] + Scan(rest, false, [])
  {
    ScanRender(c, sep + rest, []);
    assert [] + c == c;
    ScanSeparator(sep, rest, c);
    BareStripIsIdentity(c, IsSpace);
  }

  /**
   The encoding of choices (no quotes, trimmed, the last non-empty), optionally
   followed by one more separator, reads back as exactly those choices.
   */
  lemma {:induction false} ScanEncode(cs: seq<string>, sep: string, tail: string)
    requires |cs| >= 1 && cs[|cs| - 1] != []
    requires forall k :: 0 <= k < |cs| ==> Encodable(cs[k])
    requires IsSeparator(sep)
    requires tail == [] || IsSeparator(tail)
    ensures Scan(Encode(cs, sep) + tail, false, []) == cs
    decreases |cs|
  {
    if |cs| == 1 {
      assert Encode(cs, sep) == Render(cs[0]);
      ScanLast(cs[0], tail);
    } else {
      var rest := EncodeRest(cs, sep, tail);
      assert forall k :: 0 <= k < |cs[1..]| ==> cs[1..][k] == cs[k + 1];
      calc {
        Scan(Encode(cs, sep) + tail, false, []);
        Scan(Render(cs[0]) + (sep + rest), false, []);
        { ScanFirst(cs[0], sep, rest); }
        [cs[0]] + Scan(rest, false, []);
        { ScanEncode(cs[1..], sep, tail); }
        [cs[0]] + cs[1..];
        cs;
      }
    }
  }

  /** The encoding of two or more choices with a tail: the first choice, a separator, then the rest, which starts with no whitespace. */
  lemma EncodeRest(cs: seq<string>, sep: string, tail: string) returns (rest: string)
    requires |cs| >= 2 && cs[|cs| - 1] != []
    requires Encodable(cs[1])
    requires IsSeparator(sep)
    ensures rest == Encode(cs[1..], sep) + tail
    ensures Encode(cs, sep) + tail == Render(cs[0]) + (sep + rest)
    ensures rest == [] || !IsSpace(rest[0])
  {
    rest := Encode(cs[1..], sep) + tail;
    assert Encode(cs, sep) == Render(cs[0]) + sep + Encode(cs[1..], sep);
    assert cs[1..][0] == cs[1];
    EncodeStart(cs[1..], sep);
  }

  /**
   Round trip: splitting the encoding of a list of choices gives that list
   back, empty choices in the middle included; one trailing separator adds no
   empty choice.
   */
  lemma SplitEncode(cs: seq<string>, sep: string, tail: string)
    requires |cs| >= 1 && cs[|cs| - 1] != []
    requires forall k :: 0 <= k < |cs| ==> Encodable(cs[k])
    requires IsSeparator(sep)
    requires tail == [] || IsSeparator(tail)
    ensures SplitChoices(Encode(cs, sep) + tail) == cs
  {
    ScanEncode(cs, sep, tail);
  }

  lemma SplitEmpty()
    ensures SplitChoices("") == []
  {
  }

  /** `"Go, Rust, C++"` splits into three choices. */
  lemma SplitExample()
    ensures SplitChoices("Go, Rust, C++") == ["Go", "Rust", "C++"]
  {
    var cs := ["Go", "Rust", "C++"];
    SplitEncode(cs, ", ", "");
    assert Encode(cs, ", ") + "" == "Go, Rust, C++";
  }

  /** An empty choice between two commas is kept. */
  lemma SplitKeepsEmptyChoice()
    ensures SplitChoices("a,,b") == ["a", "", "b"]
  {
    var cs := ["a", "", "b"];
    SplitEncode(cs, ",", "");
    assert Encode(cs, ",") + "" == "a,,b";
  }

  /** Two choices separated by a bare comma. */
  lemma SplitTwo()
    ensures SplitChoices("u,v") == ["u", "v"]
  {
    var cs := ["u", "v"];
    SplitEncode(cs, ",", "");
    assert Encode(cs, ",") + "" == "u,v";
  }

  /** A comma right before the end of the input adds no empty choice. */
  lemma SplitTrailingComma()
    ensures SplitChoices("a, b, ") == ["a", "b"]
  {
    var cs := ["a", "b"];
    SplitEncode(cs, ", ", ", ");
    assert Encode(cs, ", ") + ", " == "a, b, ";
  }

  /** A comma between quotes is part of the choice, and the quotes are dropped. */
  lemma SplitQuotedComma()
    ensures SplitChoices("\"A, B\", C") == ["A, B", "C"]
  {
    var cs := ["A, B", "C"];
    assert ',' in cs[0];
    SplitEncode(cs, ", ", "");
    assert Encode(cs, ", ") + "" == "\"A, B\", C";
  }
}
