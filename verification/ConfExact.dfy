// Which values a configuration file can give a symbol, and which lines do (conf_read_simple and
// conf_set_sym_val in confdata.c, sym_string_valid in symbol.c).
module ConfExact {
  import opened Wrappers
  import opened Expr
  import opened Symbols
  import opened Escape
  import opened ConfFile

  // ----- bools and tristates -----

  // The first letter is that of the value; only a tristate can be m.
  lemma LogicAccepted(s: Sym, text: string, t: Tri)
    requires IsLogic(s)
    ensures Accept(s, text) == Some(Value(t, ""))
      <==> text != "" && text[0] == TriText(t, YES)[0] && (t == MOD ==> TypeOf(s).TTristate?)
  {
    assert "y"[0] == 'y' && "m"[0] == 'm' && "n"[0] == 'n';
  }

  // ----- ints -----

  function DigitChar(k: nat): char
    requires k < 10
  {
    ('0' as int + k) as char
  }

  // The decimal digits of n, without leading zeros.
  function Digits(n: nat): string {
    if n < 10 then [DigitChar(n)] else Digits(n / 10) + [DigitChar(n % 10)]
  }

  function IntText(n: int): string { if n < 0 then "-" + Digits(-n) else Digits(n) }

  function Number(d: string): nat
    requires forall c <- d :: Digit(c)
  {
    if d == "" then 0
    else
      assert forall c <- d[..|d| - 1] :: c in d;
      assert Digit(d[|d| - 1]);
      10 * Number(d[..|d| - 1]) + (d[|d| - 1] as int - '0' as int)
  }

  predicate Canonical(d: string) {
    d != "" && (forall c <- d :: Digit(c)) && (d[0] == '0' ==> |d| == 1)
  }

  lemma {:induction false} DigitsCanonical(n: nat)
    ensures Canonical(Digits(n)) && (Digits(n)[0] == '0' <==> n == 0)
  {
    if n >= 10 { DigitsCanonical(n / 10); }
  }

  lemma {:induction false} DigitsOfNumber(d: string)
    requires Canonical(d)
    ensures Digits(Number(d)) == d
  {
    if |d| == 1 {
      assert d[..0] == "" && d == [d[0]] && Digit(d[0]) && Number(d[..0]) == 0;
      assert Number(d) == d[0] as int - '0' as int;
    } else {
      var init, last := d[..|d| - 1], d[|d| - 1];
      assert d == init + [last] && init[0] == d[0] && forall c <- init :: c in d;
      assert Digit(last);
      DigitsOfNumber(init);
      DigitsCanonical(Number(init));
      NextDigit(Number(init), last);
    }
  }

  lemma NextDigit(n: nat, c: char)
    requires Digit(c) && n > 0
    ensures Digits(10 * n + (c as int - '0' as int)) == Digits(n) + [c]
  {
    var k := c as int - '0' as int;
    assert (10 * n + k) / 10 == n && (10 * n + k) % 10 == k;
  }

  // An int can be any whole number in decimal notation without leading zeros, and "-0".
  lemma IntAccepted(text: string)
    ensures StringValid(TInt, text) <==> text == "-0" || exists n: int :: text == IntText(n)
  {
    hide Digits, Number;
    if StringValid(TInt, text) { ValidDenotes(text); }
    if text == "-0" { assert text[1..] == "0"; }
    if n: int :| text == IntText(n) { DenotedValid(n); }
  }

  lemma ValidDenotes(text: string)
    requires StringValid(TInt, text)
    ensures text == "-0" || exists n: int :: text == IntText(n)
  {
    hide Digits, Number;
    var digits := if text[0] == '-' then text[1..] else text;
    DigitsOfNumber(digits);
    var n: int := Number(digits);
    DigitsCanonical(n);
    if text[0] == '-' {
      assert text == "-" + digits;
      if n == 0 { assert digits == "0"; } else { assert text == IntText(-n); }
    } else {
      assert text == IntText(n);
    }
  }

  lemma DenotedValid(n: int)
    ensures StringValid(TInt, IntText(n))
  {
    hide Digits;
    if n < 0 {
      DigitsCanonical(-n);
      assert IntText(n)[1..] == Digits(-n);
    } else {
      DigitsCanonical(n);
      assert Digits(n)[0] in Digits(n);
    }
  }

  // A hex any digits, with 0x or 0X in front or without.
  lemma HexAccepted(text: string)
    ensures StringValid(THex, text)
      <==> exists prefix, digits :: HexParts(text, prefix, digits)
  {
    if StringValid(THex, text) {
      var prefix := if Marked(text) then text[..2] else "";
      assert text == prefix + text[|prefix|..] && (prefix != "" ==> prefix == [prefix[0], prefix[1]]);
      assert text[0..] == text && HexParts(text, prefix, text[|prefix|..]);
    }
    if prefix, digits :| HexParts(text, prefix, digits) { HexPartsValid(text, prefix, digits); }
  }

  predicate Marked(text: string) { |text| >= 2 && text[0] == '0' && (text[1] == 'x' || text[1] == 'X') }

  predicate HexParts(text: string, prefix: string, digits: string) {
    prefix in {"", "0x", "0X"} && text == prefix + digits && digits != "" && forall c <- digits :: HexDigit(c)
  }

  lemma HexPartsValid(text: string, prefix: string, digits: string)
    requires HexParts(text, prefix, digits)
    ensures StringValid(THex, text)
  {
    assert text[|prefix|..] == digits;
    if prefix == "" {
      assert text == digits && (|text| >= 2 ==> HexDigit(text[1]));
    }
  }

  // ----- strings -----

  // A string needs an opening quote and one that closes it; it becomes what stands between them.
  lemma StringAccepted(s: Sym, text: string)
    requires TypeOf(s).TString?
    ensures Accept(s, text).Some? <==> text != "" && text[0] == '"' && exists q :: Closing(text[1..], q)
    ensures Accept(s, text).Some? ==> Unquote(text[1..]) == Some(Accept(s, text).value.str)
  {
    hide Unquote;
    if text != "" { ClosedExactly(text[1..]); }
  }

  // ----- whole files -----

  // A value that fits the type of s.
  predicate Fits(s: Sym, v: Value) {
    match TypeOf(s)
    case TBoolean => v.tri != MOD && v.str == ""
    case TTristate => v.str == ""
    case TInt => v.tri == NO && StringValid(TInt, v.str)
    case THex => v.tri == NO && StringValid(THex, v.str)
    case TString => v.tri == NO
    case _ => false
  }

  predicate Known(names: Names, s: Sym) {
    exists name <- names :: names[name] == s && name !in {"y", "m", "n"}
  }

  predicate AllFit(names: Names, user: User) {
    forall s <- user :: Fits(s, user[s]) && Known(names, s)
  }

  lemma AcceptFits(s: Sym, text: string)
    ensures Accept(s, text).Some? ==> Fits(s, Accept(s, text).value)
  {
    hide StringValid, Unquote;
  }

  lemma LineFits(prefix: string, names: Names, user: User, line: string)
    requires AllFit(names, user)
    ensures AllFit(names, ReadLine(prefix, names, user, line))
  {
    hide ParseLine, Accept, Fits;
    match ParseLine(prefix, line)
    case Ignored =>
    case Unset(name) => UnsetFits(names, name);
    case Assign(name, text) => if name in names { AcceptFits(names[name], text); }
  }

  lemma UnsetFits(names: Names, name: string)
    ensures name in names && IsLogic(names[name]) ==> Fits(names[name], Value(NO, ""))
  {
  }

  // Whatever a file says, the values read are for known symbols, and fit their types.
  lemma {:induction false} ReadFits(prefix: string, names: Names, lines: seq<string>)
    ensures AllFit(names, ReadLines(prefix, names, lines))
  {
    if lines != [] {
      hide ReadLine, Fits, Known;
      ReadFits(prefix, names, lines[..|lines| - 1]);
      LineFits(prefix, names, ReadLines(prefix, names, lines[..|lines| - 1]), lines[|lines| - 1]);
    }
  }

  // ----- lines -----

  // A line may end with a carriage return in front of the line feed, or without either.
  lemma AssignEndings(prefix: string, name: string, text: string)
    requires Word(prefix) && Word(name) && '\n' !in text
    ensures ParseLine(prefix, prefix + (name + ['='] + (text + "\r\n"))) == Assign(name, text)
    ensures ParseLine(prefix, prefix + (name + ['='] + text)) == Assign(name, text)
  {
    hide ParseLine, Find, Word;
    WordHasNone(name, '=');
    NoComment(prefix, name, text + "\r\n");
    NoComment(prefix, name, text);
    PrefixedLine(prefix, name + ['='] + (text + "\r\n"));
    PrefixedLine(prefix, name + ['='] + text);
    Assigned(name, text + "\r\n");
    Assigned(name, text);
    CutReturn(text);
    assert Find(text, '\n').None?;
  }

  lemma Assigned(name: string, rest: string)
    requires '=' !in name
    ensures ParseAssign(name + ['='] + rest) == Assign(name, CutLineEnd(rest))
  {
    hide Find, CutLineEnd;
    FindFirst(name, '=', rest);
    var line := name + ['='] + rest;
    assert line[..|name|] == name && line[|name| + 1..] == rest;
  }

  lemma CutReturn(text: string)
    requires '\n' !in text
    ensures CutLineEnd(text + "\r\n") == text
  {
    hide Find;
    FindFirst(text + "\r", '\n', "");
    assert text + "\r\n" == (text + "\r") + ['\n'] + "" && (text + "\r\n")[..|text|] == text;
  }

  // A line that is neither an assignment to nor a comment about something with the prefix is
  // ignored.
  lemma ForeignLine(prefix: string, names: Names, user: User, line: string)
    requires if line != "" && line[0] == '#' then |line| < 2 || !(prefix <= line[2..]) else !(prefix <= line)
    ensures ReadLine(prefix, names, user, line) == user
  {
  }

  // So is one about a symbol nobody knows, or that says of an int, hex or string that it is not
  // set.
  lemma IgnoredLine(prefix: string, names: Names, user: User, line: string, name: string, text: string)
    ensures ParseLine(prefix, line) == Unset(name) && (name !in names || !IsLogic(names[name])) ==>
      ReadLine(prefix, names, user, line) == user
    ensures ParseLine(prefix, line) == Assign(name, text) && (name !in names || Accept(names[name], text).None?) ==>
      ReadLine(prefix, names, user, line) == user
  {
    hide ParseLine, Accept;
  }

  // Every other assignment or comment sets its symbol, and no other.
  lemma SettingLine(prefix: string, names: Names, user: User, line: string, name: string, text: string)
    requires name in names && name !in {"y", "m", "n"}
    ensures ParseLine(prefix, line) == Unset(name) && IsLogic(names[name]) ==>
      ReadLine(prefix, names, user, line) == user[names[name] := Value(NO, "")]
    ensures ParseLine(prefix, line) == Assign(name, text) && Accept(names[name], text).Some? ==>
      ReadLine(prefix, names, user, line) == user[names[name] := Accept(names[name], text).value]
  {
    hide ParseLine, Accept;
  }
}
