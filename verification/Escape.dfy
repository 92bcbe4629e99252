// Quoting of string values in configuration files: sym_escape_string_value (symbol.c) and the
// unquoting in conf_set_sym_val (confdata.c).
module Escape {
  import opened Wrappers

  const NUL: char := '\0'

  predicate Special(c: char) { c == '"' || c == '\\' }

  // A string as C sees it: no terminator inside.
  predicate CString(s: string) { NUL !in s }

  // ----- what the two loops compute -----

  function EscapeBody(s: string): string {
    if s == "" then "" else EscapeChar(s[0]) + EscapeBody(s[1..])
  }

  function EscapeChar(c: char): string { if Special(c) then ['\\', c] else [c] }

  function Escaped(s: string): string { "\"" + EscapeBody(s) + "\"" }

  // The text behind an opening quote, up to the closing one; None if there is none.
  function Unquote(s: string): Option<string> {
    if s == "" then None
    else if s[0] == '"' then Some("")
    else if s[0] == '\\' then (if |s| == 1 then None else Before(s[1..2], Unquote(s[2..])))
    else Before(s[..1], Unquote(s[1..]))
  }

  function Before(a: string, r: Option<string>): Option<string> {
    if r.Some? then Some(a + r.value) else None
  }

  lemma BeforeBefore(a: string, b: string, r: Option<string>)
    ensures Before(a, Before(b, r)) == Before(a + b, r)
  {
    if r.Some? { assert a + (b + r.value) == (a + b) + r.value; }
  }

  lemma {:induction false} BeforeNothing(s: string)
    ensures Before("", Unquote(s)) == Unquote(s)
  {
    if Unquote(s).Some? { assert "" + Unquote(s).value == Unquote(s).value; }
  }

  // Unquoting undoes quoting, whatever follows the closing quote.
  lemma {:induction false} UnquoteEscaped(s: string, rest: string)
    ensures Unquote(EscapeBody(s) + "\"" + rest) == Some(s)
  {
    UnquoteBody(s, "\"" + rest);
    assert EscapeBody(s) + "\"" + rest == EscapeBody(s) + ("\"" + rest);
    assert s + "" == s;
  }

  lemma {:induction false} UnquoteChar(c: char, t: string)
    ensures Unquote(EscapeChar(c) + t) == Before([c], Unquote(t))
  {
    var u := EscapeChar(c) + t;
    if Special(c) {
      assert u[2..] == t && u[1..2] == [c];
    } else {
      assert u[1..] == t && u[..1] == [c];
    }
  }

  // A quoted body in front of t reads as the text itself.
  lemma {:induction false} UnquoteBody(s: string, t: string)
    ensures Unquote(EscapeBody(s) + t) == Before(s, Unquote(t))
  {
    if s == "" {
      assert EscapeBody(s) + t == t;
      BeforeNothing(t);
    } else {
      hide Unquote;
      var tail := EscapeBody(s[1..]) + t;
      UnquoteBody(s[1..], t);
      assert EscapeBody(s) + t == EscapeChar(s[0]) + tail;
      UnquoteChar(s[0], tail);
      BeforeBefore([s[0]], s[1..], Unquote(t));
      assert [s[0]] + s[1..] == s;
    }
  }

  // Quoting is the only way to write a string: two strings never share a quoted form.
  lemma EscapedInjective(s: string, t: string)
    requires Escaped(s) == Escaped(t)
    ensures s == t
  {
    assert EscapeBody(s) + "\"" == Escaped(s)[1..] == EscapeBody(t) + "\"";
    UnquoteEscaped(s, "");
    UnquoteEscaped(t, "");
    assert EscapeBody(s) + "\"" + "" == EscapeBody(t) + "\"" + "";
  }

  // No shorter text reads as s: only what has to be quoted is.
  lemma {:induction false} ShortestQuoted(s: string, text: string)
    requires Unquote(text) == Some(s)
    ensures |EscapeBody(s) + "\""| <= |text|
    decreases |text|
  {
    if text[0] == '\\' {
      var u := Unquote(text[2..]).value;
      assert s == text[1..2] + u && s[0] == text[1] && s[1..] == u;
      ShortestQuoted(u, text[2..]);
    } else if text[0] != '"' {
      var u := Unquote(text[1..]).value;
      assert s == text[..1] + u && s[0] == text[0] && s[1..] == u;
      ShortestQuoted(u, text[1..]);
    }
  }

  // How many backslashes stand directly in front of q.
  function Run(text: string, q: nat): nat
    requires q <= |text|
  {
    if q == 0 || text[q - 1] != '\\' then 0 else 1 + Run(text, q - 1)
  }

  // A quote with an even number of backslashes in front of it closes the text.
  predicate Closing(text: string, q: int) {
    0 <= q < |text| && text[q] == '"' && Run(text, q) % 2 == 0
  }

  lemma {:induction false} RunOfTail(text: string, k: nat, q: nat)
    requires k <= q <= |text| && (k > 0 ==> text[k - 1] != '\\')
    ensures Run(text, q) == Run(text[k..], q - k)
  {
    if q > k { RunOfTail(text, k, q - 1); }
  }

  lemma {:induction false} RunBehindPair(text: string, q: nat)
    requires 2 <= q <= |text| && text[0] == '\\'
    ensures Run(text, q) % 2 == Run(text[2..], q - 2) % 2
  {
    if text[1] != '\\' {
      RunOfTail(text, 2, q);
    } else if q == 2 {
      assert Run(text, 2) == 1 + Run(text, 1) && Run(text, 1) == 1 + Run(text, 0);
    } else if text[q - 1] == '\\' {
      RunBehindPair(text, q - 1);
    }
  }

  // A text can be read if and only if some quote closes it.
  lemma {:induction false} ClosedExactly(text: string)
    ensures Unquote(text).Some? <==> exists q :: Closing(text, q)
    decreases |text|
  {
    if text != "" && text[0] == '"' {
      assert Closing(text, 0);
    } else if text != "" && (text[0] != '\\' || |text| > 1) {
      var k := if text[0] == '\\' then 2 else 1;
      ClosedExactly(text[k..]);
      forall q: int
        ensures Closing(text, q) <==> Closing(text[k..], q - k)
      {
        if k <= q < |text| {
          if k == 2 { RunBehindPair(text, q); } else { RunOfTail(text, 1, q); }
        } else if q == 1 && k == 2 {
          assert Run(text, 1) == 1 + Run(text, 0);
        }
      }
      if q :| Closing(text[k..], q) { assert Closing(text, q + k) <==> Closing(text[k..], q + k - k); }
    }
  }

  lemma {:induction false} EscapeAppend(a: string, b: string)
    ensures EscapeBody(a + b) == EscapeBody(a) + EscapeBody(b)
  {
    if a == "" {
      assert a + b == b;
    } else {
      assert (a + b)[0] == a[0] && (a + b)[1..] == a[1..] + b;
      EscapeAppend(a[1..], b);
    }
  }

  lemma {:induction false} EscapePlain(a: string)
    requires forall c <- a :: !Special(c)
    ensures EscapeBody(a) == a
  {
    if a != "" { EscapePlain(a[1..]); }
  }

  // One turn of either loop: a stretch without special characters and the one behind it.
  lemma EscapeStep(s: string, p: nat, q: nat)
    requires p <= q < |s| && (forall k | p <= k < q :: !Special(s[k])) && Special(s[q])
    ensures EscapeBody(s[..q + 1]) == EscapeBody(s[..p]) + s[p..q] + ['\\', s[q]]
  {
    assert s[..q + 1] == s[..p] + (s[p..q] + [s[q]]);
    EscapeAppend(s[..p], s[p..q] + [s[q]]);
    EscapeAppend(s[p..q], [s[q]]);
    EscapePlain(s[p..q]);
  }

  lemma {:induction false} EscapeEnd(s: string, p: nat)
    requires p <= |s| && forall k | p <= k < |s| :: !Special(s[k])
    ensures EscapeBody(s) == EscapeBody(s[..p]) + s[p..]
  {
    assert s == s[..p] + s[p..];
    EscapeAppend(s[..p], s[p..]);
    EscapePlain(s[p..]);
  }

  // strcspn(p, "\"\\")
  method Span(s: string, p: nat) returns (l: nat)
    requires p <= |s|
    ensures p + l <= |s| && (forall k | p <= k < p + l :: !Special(s[k])) && (p + l < |s| ==> Special(s[p + l]))
  {
    l := 0;
    while p + l < |s| && !Special(s[p + l])
      invariant p + l <= |s| && forall k | p <= k < p + l :: !Special(s[k])
    {
      l := l + 1;
    }
  }

  // strcat and strncat: s goes where the terminator at n is.
  method Append(res: array<char>, n: nat, s: string) returns (n': nat)
    requires n + |s| < res.Length
    modifies res
    ensures n' == n + |s| && res[..n'] == old(res[..n]) + s && res[n'] == NUL
  {
    var i := 0;
    while i < |s|
      invariant 0 <= i <= |s| && res[..n + i] == old(res[..n]) + s[..i]
    {
      res[n + i] := s[i];
      assert res[..n + i + 1] == res[..n + i] + [s[i]];
      i := i + 1;
    }
    res[n + i] := NUL;
    n' := n + i;
  }

  // The first loop: the size of the quoted string, with quotes and terminator.
  method EscapedSize(s: string) returns (reslen: nat)
    ensures reslen == |Escaped(s)| + 1
  {
    reslen := |s| + |"\"\""| + 1;
    var p := 0;
    while true
      invariant p <= |s| && reslen == (|s| - p) + |EscapeBody(s[..p])| + 3
      decreases |s| - p
    {
      var l := Span(s, p);
      if p + l == |s| {
        EscapeEnd(s, p);
        break;
      }
      EscapeStep(s, p, p + l);
      p := p + l;
      reslen := reslen + 1;
      p := p + 1;
    }
  }

  // sym_escape_string_value: the buffer is filled exactly, terminator included.
  method SymEscapeStringValue(s: string) returns (res: array<char>)
    requires CString(s)
    ensures fresh(res) && res[..] == Escaped(s) + [NUL]
  {
    hide EscapeBody;
    var reslen := EscapedSize(s);
    res := new char[reslen];
    res[0] := NUL;
    var n := Append(res, 0, "\"");
    EscapeNothing(s);
    var p := 0;
    while true
      invariant p <= |s| && n < reslen == res.Length == |Escaped(s)| + 1
      invariant res[..n] == "\"" + EscapeBody(s[..p])
      decreases |s| - p
    {
      var l := Span(s, p);
      SizeLeft(s, p, p + l);
      n := Append(res, n, s[p..p + l]);
      p := p + l;
      if p == |s| {
        EscapeEnd(s, p - l);
        assert s[p - l..p] == s[p - l..];
        Regroup("\"", EscapeBody(s[..p - l]), s[p - l..]);
        assert res[..n] == "\"" + EscapeBody(s);
        break;
      }
      EscapeStep(s, p - l, p);
      n := AppendSpecial(res, n, s[p], "\"", EscapeBody(s[..p - l]), s[p - l..p]);
      p := p + 1;
    }
    assert n + 2 == res.Length;
    n := Append(res, n, "\"");
    assert res[..] == res[..n] + [NUL];
  }

  lemma Regroup(q: string, b: string, x: string)
    ensures (q + b) + x == q + (b + x)
  {
  }

  // A special character, with a backslash in front.
  method AppendSpecial(res: array<char>, n: nat, c: char, ghost q: string, ghost b: string, ghost x: string)
    returns (n': nat)
    requires n + 2 < res.Length && res[..n] == q + b + x
    modifies res
    ensures n' == n + 2 && res[..n'] == q + (b + x + ['\\', c])
  {
    n' := Append(res, n, "\\");
    n' := Append(res, n', [c]);
    Associate(q, b, x, c);
  }

  lemma EscapeNothing(s: string)
    ensures EscapeBody(s[..0]) == ""
  {
  }

  lemma Associate(q: string, b: string, x: string, c: char)
    ensures q + b + x + "\\" + [c] == q + (b + x + ['\\', c])
  {
  }

  // What is still to be written fits.
  lemma {:induction false} SizeLeft(s: string, p: nat, q: nat)
    requires p <= q <= |s| && (forall k | p <= k < q :: !Special(s[k])) && (q < |s| ==> Special(s[q]))
    ensures |EscapeBody(s)| >= |EscapeBody(s[..p])| + (q - p) + if q < |s| then 2 else 0
  {
    if q < |s| {
      EscapeStep(s, p, q);
      assert s == s[..q + 1] + s[q + 1..];
      EscapeAppend(s[..q + 1], s[q + 1..]);
    } else {
      EscapeEnd(s, p);
    }
  }

  // ----- unquoting in place -----

  // Characters that are not special are kept.
  lemma {:induction false} UnquotePlain(a: string, s: string)
    requires forall c <- a :: !Special(c)
    ensures Unquote(a + s) == Before(a, Unquote(s))
  {
    if a == "" {
      assert a + s == s;
      if Unquote(s).Some? { assert "" + Unquote(s).value == Unquote(s).value; }
    } else {
      assert (a + s)[0] == a[0] && (a + s)[1..] == a[1..] + s && (a + s)[..1] == [a[0]];
      assert a[0] in a && !Special(a[0]);
      UnquotePlain(a[1..], s);
      BeforeBefore([a[0]], a[1..], Unquote(s));
      assert [a[0]] + a[1..] == a;
    }
  }

  // strpbrk(p2, "\"\\"): the next special character, or the terminator at end.  The text from
  // p to p2 has been dealt with; what is skipped belongs to it.
  method Break(buf: array<char>, ghost p: nat, p2: nat, ghost end: nat) returns (q: nat, found: bool)
    requires p <= p2 <= end < buf.Length && buf[end] == NUL && CString(buf[p2..end])
    ensures p2 <= q <= end && (found <==> q < end) && (found ==> Special(buf[q])) && CString(buf[q..end])
    ensures Before(buf[p..q], Unquote(buf[q..end])) == Before(buf[p..p2], Unquote(buf[p2..end]))
  {
    q := p2;
    while buf[q] != NUL && !Special(buf[q])
      invariant p2 <= q <= end && forall c <- buf[p2..q] :: !Special(c)
      decreases end - q
    {
      assert buf[p2..q + 1] == buf[p2..q] + [buf[q]];
      q := q + 1;
    }
    found := buf[q] != NUL;
    assert buf[p2..end] == buf[p2..q] + buf[q..end] && buf[p..p2] + buf[p2..q] == buf[p..q];
    assert q < end ==> buf[q] == buf[q..end][0];
    UnquotePlain(buf[p2..q], buf[q..end]);
    BeforeBefore(buf[p..p2], buf[p2..q], Unquote(buf[q..end]));
  }

  // memmove(p2, p2 + 1, strlen(p2))
  method DropChar(buf: array<char>, q: nat, ghost end: nat)
    requires q < end < buf.Length && buf[end] == NUL && CString(buf[q..end])
    modifies buf
    ensures buf[..q] == old(buf[..q]) && buf[q..end] == old(buf[q + 1..end + 1]) && buf[end] == NUL
  {
    ghost var was := buf[..];
    var i := q;
    while buf[i] != NUL
      invariant q <= i <= end && buf[..q] == was[..q] && buf[i..] == was[i..]
      invariant buf[q..i] == was[q + 1..i + 1]
      decreases end - i
    {
      assert buf[i..][1..] == buf[i + 1..] == was[i + 1..];
      buf[i] := buf[i + 1];
      assert buf[i + 1..] == was[i + 1..];
      assert buf[q..i + 1] == buf[q..i] + [was[i + 1]];
      i := i + 1;
    }
    assert i == end by {
      assert buf[i] == buf[i..][0] == was[i..][0] == was[i];
      assert forall k | q <= k < end :: was[k] == was[q..end][k - q];
    }
  }

  // The backslash at q goes and the character behind it is skipped.  For a backslash at the
  // very end of the line the loop goes on at the old terminator.
  method DropBackslash(buf: array<char>, ghost p: nat, q: nat, ghost end: nat) returns (ghost end': nat)
    requires p <= q < end < buf.Length && buf[end] == NUL && CString(buf[q..end]) && buf[q] == '\\'
    modifies buf
    ensures q + 1 <= end' <= end && end' - (q + 1) < end - q && buf[end'] == NUL && CString(buf[q + 1..end'])
    ensures buf[..p] == old(buf[..p])
    ensures Before(buf[p..q + 1], Unquote(buf[q + 1..end'])) == old(Before(buf[p..q], Unquote(buf[q..end])))
  {
    hide Unquote, Before;
    ghost var was := buf[..];
    assert was[..q] == buf[..q] && was[q + 1..end + 1] == buf[q + 1..end + 1] && was[p..q] == buf[p..q];
    assert was[q..end] == buf[q..end];
    DropChar(buf, q, end);
    ghost var now := buf[..];
    assert now[..q] == buf[..q] && now[q..end] == buf[q..end];
    end' := if q + 1 == end then end else end - 1;
    DroppedBackslash(was, now, p, q, end, end');
    assert buf[p..q + 1] == now[p..q + 1] && buf[q + 1..end'] == now[q + 1..end'] && buf[..p] == now[..p];
  }

  lemma DroppedBackslash(was: string, now: string, p: nat, q: nat, end: nat, end': nat)
    requires p <= q < end < |was| == |now| && was[end] == now[end] == NUL && was[q] == '\\' && CString(was[q..end])
    requires now[..q] == was[..q] && now[q..end] == was[q + 1..end + 1]
    requires end' == if q + 1 == end then end else end - 1
    ensures now[..p] == was[..p] && now[end'] == NUL && CString(now[q + 1..end'])
    ensures Before(now[p..q + 1], Unquote(now[q + 1..end'])) == Before(was[p..q], Unquote(was[q..end]))
  {
    var a, s := was[p..q], was[q..end];
    assert now[..p] == now[..q][..p] && was[..p] == was[..q][..p];
    if |s| == 1 {
      assert now[q + 1..end'] == "";
    } else {
      DroppedAt(was, now, q, end);
      assert a == was[..q][p..] && now[p..q] == now[..q][p..];
      assert s[1..2] == [s[1]] && s[1] == was[q + 1] == now[q];
      assert now[p..q + 1] == now[p..q] + [now[q]];
      assert now[q + 1..end'] == was[q + 2..end] == s[2..];
      BeforeBefore(a, s[1..2], Unquote(s[2..]));
    }
  }

  lemma DroppedAt(was: string, now: string, q: nat, end: nat)
    requires q < end < |was| == |now| && now[q..end] == was[q + 1..end + 1]
    ensures forall k | q <= k < end :: now[k] == was[k + 1]
  {
    forall k | q <= k < end
      ensures now[k] == was[k + 1]
    {
      assert now[q..end][k - q] == was[q + 1..end + 1][k - q];
    }
  }

  // The loop of conf_set_sym_val for strings: p is behind the opening quote, the line ends at
  // end.  On success the text is what stands from p up to the terminator at stop.
  method UnquoteInPlace(buf: array<char>, p: nat, ghost end: nat) returns (ok: bool, stop: nat)
    requires p <= end < buf.Length && buf[end] == NUL && CString(buf[p..end])
    modifies buf
    ensures ok <==> Unquote(old(buf[p..end])).Some?
    ensures ok ==> p <= stop < buf.Length && buf[stop] == NUL && Unquote(old(buf[p..end])) == Some(buf[p..stop])
    ensures buf[..p] == old(buf[..p])
  {
    hide Unquote, Before;
    ghost var line, e := buf[p..end], end;
    var p2 := p;
    assert buf[p..p] == "";
    BeforeNothing(line);
    while true
      invariant p <= p2 <= e < buf.Length && buf[e] == NUL && CString(buf[p2..e])
      invariant buf[..p] == old(buf[..p])
      invariant Unquote(line) == Before(buf[p..p2], Unquote(buf[p2..e]))
      decreases e - p2
    {
      var q, found := Break(buf, p, p2, e);
      if !found {
        assert buf[q..e] == "";
        UnquoteEnd(buf[p..q], "");
        return false, q;
      }
      if buf[q] == '"' {
        UnquoteEnd(buf[p..q], buf[q..e]);
        buf[q] := NUL;
        return true, q;
      }
      e := DropBackslash(buf, p, q, e);
      p2 := q + 1;
    }
  }

  lemma {:induction false} UnquoteEnd(a: string, s: string)
    requires s == "" || s[0] == '"'
    ensures Before(a, Unquote(s)) == if s == "" then None else Some(a)
  {
    assert a + "" == a;
  }
}
