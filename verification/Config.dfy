// The configuration file (default.c): fields are quoted on writing and split into tokens on reading; lines
// are a name and a value. What is written is what is read.

module Config {
  import opened Basics

  // ----- Tokens -----

  predicate IsBlank(c: char) {
    c == ' ' || c == '\t'
  }

  predicate IsNewline(c: char) {
    c == '\n' || c == '\r'
  }

  function SkipBlanks(s: string): (t: string)
    ensures |t| <= |s| && (t != "" ==> !IsBlank(t[0]))
  {
    if s != "" && IsBlank(s[0]) then SkipBlanks(s[1..]) else s
  }

  datatype Scanned = Scanned(token: string, rest: string)

  /** Up to a blank outside quotes; a backslash makes the next character ordinary. */
  function Scan(s: string, escape: bool, quote: bool): Scanned {
    if s == "" then Scanned("", "")
    else if escape then Cons(s[0], Scan(s[1..], false, quote))
    else if s[0] == '\\' then Scan(s[1..], true, quote)
    else if s[0] == '"' then Scan(s[1..], false, !quote)
    else if IsBlank(s[0]) && !quote then Scanned("", s)
    else Cons(s[0], Scan(s[1..], false, quote))
  }

  function Cons(c: char, r: Scanned): Scanned {
    Scanned([c] + r.token, r.rest)
  }

  function Prepend(a: string, r: Scanned): Scanned {
    Scanned(a + r.token, r.rest)
  }

  function Token(s: string): Option<Scanned> {
    var t := SkipBlanks(s);
    if t == "" then None else Some(Scan(t, false, false))
  }

  method SkipOverBlanks(s: string) returns (t: string)
    ensures t == SkipBlanks(s)
  {
    var i := 0;
    while i < |s| && IsBlank(s[i])
      invariant 0 <= i <= |s| && SkipBlanks(s[i..]) == SkipBlanks(s)
    {
      i := i + 1;
    }
    return s[i..];
  }

  lemma {:induction false} ScanStep(s: string, i: nat, escape: bool, quote: bool, l: string)
    requires i < |s|
    ensures var r := Scan(s[i..], escape, quote);
            if escape || !(s[i] == '\\' || s[i] == '"' || (IsBlank(s[i]) && !quote)) then
              Prepend(l, r) == Prepend(l + [s[i]], Scan(s[i + 1..], false, quote))
            else if s[i] == '\\' then r == Scan(s[i + 1..], true, quote)
            else if s[i] == '"' then r == Scan(s[i + 1..], false, !quote)
            else r == Scanned("", s[i..])
  {
    assert s[i..][0] == s[i] && s[i..][1..] == s[i + 1..];
    var rest := Scan(s[i + 1..], false, quote);
    assert l + ([s[i]] + rest.token) == l + [s[i]] + rest.token;
  }

  /** get_token (default.c, lines 185-211). */
  method GetToken(line: string) returns (token: Option<string>, rest: string)
    ensures match Token(line)
            case None => token.None?
            case Some(r) => token == Some(r.token) && rest == r.rest
  {
    var s := SkipOverBlanks(line);
    if s == "" {
      return None, "";
    }
    var i, l, escape, quote := 0, "", false, false;
    assert s[0..] == s && Prepend("", Scan(s, false, false)) == Scan(s, false, false);
    while i < |s|
      invariant 0 <= i <= |s| && Scan(s, false, false) == Prepend(l, Scan(s[i..], escape, quote))
    {
      ScanStep(s, i, escape, quote, l);
      if escape {
        escape := false;
      } else if s[i] == '\\' {
        escape := true;
        i := i + 1;
        continue;
      } else if s[i] == '"' {
        quote := !quote;
        i := i + 1;
        continue;
      } else if IsBlank(s[i]) && !quote {
        break;
      }
      l := l + [s[i]];
      i := i + 1;
    }
    assert l + "" == l && (i == |s| ==> s[i..] == "");
    return Some(l), s[i..];
  }

  // ----- Quoting -----

  function Escaped(q: string): string {
    if q == "" then ""
    else (if q[0] == '"' || q[0] == '\\' then ['\\', q[0]] else [q[0]]) + Escaped(q[1..])
  }

  function Quoted(q: string): (r: string)
    ensures r != "" && r[0] == '"'
  {
    "\"" + Escaped(q) + "\""
  }

  /** add_quoted_to_str (lines 501-510). */
  method AddQuotedToStr(s: string, q: string) returns (t: string)
    ensures t == s + Quoted(q)
  {
    t := s + "\"";
    var i := 0;
    while i < |q|
      invariant 0 <= i <= |q| && t + Escaped(q[i..]) == s + "\"" + Escaped(q)
    {
      assert q[i..][0] == q[i] && q[i..][1..] == q[i + 1..];
      if q[i] == '"' || q[i] == '\\' {
        t := t + "\\";
      }
      t := t + [q[i]];
      i := i + 1;
    }
    assert t + "" == t == s + "\"" + Escaped(q);
    t := t + "\"";
    assert s + "\"" + Escaped(q) + "\"" == s + ("\"" + Escaped(q) + "\"");
  }

  /** One character inside quotes, escaped if need be, is itself. */
  lemma {:induction false} ScanChar(c: char, more: string)
    requires c != '"' && c != '\\'
    ensures Scan([c] + more, false, true) == Cons(c, Scan(more, false, true))
  {
    assert ([c] + more)[1..] == more;
  }

  lemma {:induction false} ScanEscape(c: char, more: string)
    ensures Scan(['\\', c] + more, false, true) == Cons(c, Scan(more, false, true))
  {
    var s := [c] + more;
    assert (['\\', c] + more)[1..] == s && s[1..] == more;
    assert Scan(s, true, true) == Cons(c, Scan(more, false, true));
  }

  lemma {:induction false} ScanEscaped(q: string, rest: string)
    requires rest != "" && rest[0] == '"'
    ensures Scan(Escaped(q) + rest, false, true) == Prepend(q, Scan(rest[1..], false, false))
  {
    if q == "" {
      assert Escaped(q) + rest == rest;
    } else {
      var c, tail := q[0], Escaped(q[1..]);
      ScanEscaped(q[1..], rest);
      ConsPrepend(q, Scan(rest[1..], false, false));
      if c == '"' || c == '\\' {
        Regroup(['\\', c], tail, rest);
        ScanEscape(c, tail + rest);
      } else {
        Regroup([c], tail, rest);
        ScanChar(c, tail + rest);
      }
    }
  }

  lemma ConsPrepend(q: string, r: Scanned)
    requires q != ""
    ensures Cons(q[0], Prepend(q[1..], r)) == Prepend(q, r)
  {
    assert [q[0]] + (q[1..] + r.token) == q + r.token;
  }

  /** The end of a field. */
  predicate Ends(s: string) {
    s == "" || IsBlank(s[0])
  }

  /** A quoted field is read back, whatever it contains. */
  lemma TokenQuoted(q: string, rest: string)
    requires Ends(rest)
    ensures Token(Quoted(q) + rest) == Some(Scanned(q, rest))
  {
    var after := "\"" + rest;
    var s := Quoted(q) + rest;
    assert s == "\"" + (Escaped(q) + after) && s[1..] == Escaped(q) + after;
    ScanEscaped(q, after);
    assert after[1..] == rest;
    assert Scan(rest, false, false) == Scanned("", rest);
    assert q + "" == q;
  }

  /** What needs no quotes. */
  predicate Bare(w: string) {
    w != "" && forall i :: 0 <= i < |w| ==> !IsBlank(w[i]) && w[i] != '"' && w[i] != '\\'
  }

  lemma {:induction false} ScanBare(w: string, rest: string)
    requires Ends(rest) && (w == "" || Bare(w))
    ensures Scan(w + rest, false, false) == Scanned(w, rest)
  {
    if w == "" {
      assert w + rest == rest;
    } else {
      assert (w + rest)[1..] == w[1..] + rest;
      ScanBare(w[1..], rest);
      assert w == [w[0]] + w[1..];
    }
  }

  lemma TokenBare(w: string, rest: string)
    requires Ends(rest) && Bare(w)
    ensures Token(w + rest) == Some(Scanned(w, rest))
  {
    ScanBare(w, rest);
  }

  lemma TokenBlank(s: string)
    ensures Token(" " + s) == Token(s)
  {
    assert (" " + s)[1..] == s;
  }

  function Joined(fields: seq<string>): string {
    if fields == [] then ""
    else if |fields| == 1 then Quoted(fields[0])
    else Quoted(fields[0]) + " " + Joined(fields[1..])
  }

  /** The next n tokens, as long as there are any. */
  function Tokens(s: string, n: nat): seq<string>
    decreases n
  {
    if n == 0 || Token(s).None? then []
    else [Token(s).value.token] + Tokens(Token(s).value.rest, n - 1)
  }

  lemma {:induction false} TokensBlank(s: string, n: nat)
    ensures Tokens(" " + s, n) == Tokens(s, n)
  {
    TokenBlank(s);
  }

  /** Any list of fields, quoted and joined by spaces, is returned field by field, and nothing more. */
  lemma {:induction false} TokensJoined(fields: seq<string>, extra: nat)
    ensures Tokens(Joined(fields), |fields| + extra) == fields
    decreases |fields|
  {
    if fields != [] {
      var rest := if |fields| == 1 then "" else " " + Joined(fields[1..]);
      assert Joined(fields) == Quoted(fields[0]) + rest;
      TokenQuoted(fields[0], rest);
      TokensJoined(fields[1..], extra);
      if |fields| > 1 {
        TokensBlank(Joined(fields[1..]), |fields| - 1 + extra);
      } else {
        assert fields[1..] == [];
      }
      assert fields == [fields[0]] + fields[1..];
    }
  }
}
