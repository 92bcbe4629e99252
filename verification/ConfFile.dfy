// Lines of a configuration file: kconfig_print_symbol and conf_write_symbol for writing, the
// line rules of conf_read_simple and conf_set_sym_val for reading (confdata.c).
module ConfFile {
  import opened Wrappers
  import opened Expr
  import opened Symbols
  import opened Escape

  // ----- characters and names -----

  predicate Digit(c: char) { '0' <= c <= '9' }

  predicate HexDigit(c: char) { Digit(c) || 'a' <= c <= 'f' || 'A' <= c <= 'F' }

  predicate WordChar(c: char) { Digit(c) || 'a' <= c <= 'z' || 'A' <= c <= 'Z' || c == '_' }

  predicate Word(s: string) { forall c <- s :: WordChar(c) }

  // strchr
  function Find(s: string, c: char): (r: Option<nat>)
    ensures r.Some? ==> r.value < |s| && s[r.value] == c && c !in s[..r.value]
    ensures r.None? ==> c !in s
  {
    if s == "" then None
    else if s[0] == c then Some(0)
    else
      var q := Find(s[1..], c);
      if q.Some? then
        assert s[..q.value + 1] == [s[0]] + s[1..][..q.value];
        Some(q.value + 1)
      else None
  }

  lemma {:induction false} FindFirst(a: string, c: char, b: string)
    requires c !in a
    ensures Find(a + [c] + b, c) == Some(|a|)
  {
    if a != "" {
      FindFirst(a[1..], c, b);
      assert (a + [c] + b)[1..] == a[1..] + [c] + b;
    }
  }

  // ----- writing -----

  // conf_write_symbol with the printer kconfig_print_symbol; prefix is the macro CONFIG_, text
  // what sym_get_string_value returns.
  function PrintSymbol(prefix: string, s: Sym, text: string): string
    requires s.Ref?
  {
    match s.typ
    case TUnknown => ""
    case TOther => ""
    case TString => prefix + s.name + "=" + Escaped(text) + "\n"
    case TInt => prefix + s.name + "=" + text + "\n"
    case THex => prefix + s.name + "=" + text + "\n"
    case _ =>
      if text != "" && text[0] == 'n' then "# " + prefix + s.name + " is not set\n"
      else prefix + s.name + "=" + text + "\n"
  }

  // ----- reading -----

  datatype Entry = Ignored | Unset(name: string) | Assign(name: string, text: string)

  const IS_NOT_SET := "is not set"

  // How conf_read_simple takes a line apart.
  function ParseLine(prefix: string, line: string): Entry {
    if line != "" && line[0] == '#' then
      if |line| < 2 || !(prefix <= line[2..]) then Ignored else ParseUnset(line[2 + |prefix|..])
    else if prefix <= line then ParseAssign(line[|prefix|..])
    else Ignored
  }

  function ParseUnset(rest: string): Entry {
    var i := Find(rest, ' ');
    if i.Some? && IS_NOT_SET <= rest[i.value + 1..] then Unset(rest[..i.value]) else Ignored
  }

  function ParseAssign(rest: string): Entry {
    var i := Find(rest, '=');
    if i.None? then Ignored else Assign(rest[..i.value], CutLineEnd(rest[i.value + 1..]))
  }

  function CutLineEnd(p: string): string {
    var j := Find(p, '\n');
    if j.None? then p
    else if j.value > 0 && p[j.value - 1] == '\r' then p[..j.value - 1]
    else p[..j.value]
  }

  // sym_string_valid for int and hex
  predicate StringValid(typ: SymType, text: string) {
    match typ
    case TString => true
    case TInt =>
      var digits := if text != "" && text[0] == '-' then text[1..] else text;
      digits != "" && (forall c <- digits :: Digit(c)) && (digits[0] == '0' ==> |digits| == 1)
    case THex =>
      var digits := if |text| >= 2 && text[0] == '0' && (text[1] == 'x' || text[1] == 'X') then text[2..] else text;
      digits != "" && forall c <- digits :: HexDigit(c)
    case _ => false
  }

  // conf_set_sym_val: the user value an assignment gives, if it is accepted.
  function Accept(s: Sym, text: string): Option<Value> {
    match TypeOf(s)
    case TBoolean => AcceptLogic(false, text)
    case TTristate => AcceptLogic(true, text)
    case TString => if text != "" && text[0] == '"' then AsText(Unquote(text[1..])) else None
    case TInt => if StringValid(TInt, text) then Some(Value(NO, text)) else None
    case THex => if StringValid(THex, text) then Some(Value(NO, text)) else None
    case _ => None
  }

  function AcceptLogic(tristate: bool, text: string): Option<Value> {
    if text == "" then None
    else if tristate && text[0] == 'm' then Some(Value(MOD, ""))
    else if text[0] == 'y' then Some(Value(YES, ""))
    else if text[0] == 'n' then Some(Value(NO, ""))
    else None
  }

  function AsText(r: Option<string>): Option<Value> {
    if r.Some? then Some(Value(NO, r.value)) else None
  }

  // The symbol table; sym_find returns the constants for y, m and n.
  type Names = map<string, Sym>

  function SymFind(names: Names, name: string): Option<Sym> {
    if name in {"y", "m", "n"} then None else if name in names then Some(names[name]) else None
  }

  function Set(user: User, s: Sym, v: Option<Value>): User {
    if v.Some? then user[s := v.value] else user
  }

  // One turn of the loop in conf_read_simple.
  function ReadLine(prefix: string, names: Names, user: User, line: string): User {
    match ParseLine(prefix, line)
    case Ignored => user
    case Unset(name) =>
      var s := SymFind(names, name);
      if s.Some? && IsLogic(s.value) then user[s.value := Value(NO, "")] else user
    case Assign(name, text) =>
      var s := SymFind(names, name);
      if s.Some? then Set(user, s.value, Accept(s.value, text)) else user
  }

  function ReadLines(prefix: string, names: Names, lines: seq<string>): User {
    if lines == [] then map[]
    else ReadLine(prefix, names, ReadLines(prefix, names, lines[..|lines| - 1]), lines[|lines| - 1])
  }

  // conf_read_simple for S_DEF_USER: all user values are dropped, then the lines are read.
  method ConfReadSimple(prefix: string, names: Names, lines: seq<string>) returns (user: User)
    ensures user == ReadLines(prefix, names, lines)
  {
    user := map[];
    for i := 0 to |lines|
      invariant user == ReadLines(prefix, names, lines[..i])
    {
      assert lines[..i + 1][..i] == lines[..i];
      user := ReadLine(prefix, names, user, lines[i]);
    }
    assert lines[..|lines|] == lines;
  }

  // ----- what has been written is read -----

  // The prefix and the name are words, and the name leads back to the symbol.
  predicate Named(prefix: string, names: Names, s: Sym) {
    && Word(prefix) && s.Ref? && Word(s.name) && s.name !in {"y", "m", "n"}
    && s.name in names && names[s.name] == s
  }

  // The value found again for a symbol written with the value text.
  function ReadBack(s: Sym, text: string): Option<Value> {
    if IsLogic(s) then AcceptLogic(TypeOf(s).TTristate?, text)
    else if TypeOf(s).TString? then Some(Value(NO, text))
    else if StringValid(TypeOf(s), text) then Some(Value(NO, text))
    else None
  }

  lemma WordHasNone(s: string, c: char)
    requires Word(s) && !WordChar(c)
    ensures c !in s
  {
  }

  lemma AssignLine(prefix: string, name: string, text: string)
    requires Word(prefix) && Word(name) && '\n' !in text && !EndsInReturn(text)
    ensures ParseLine(prefix, prefix + name + "=" + text + "\n") == Assign(name, text)
  {
    hide ParseLine, ParseAssign, Word, EndsInReturn;
    var rest := name + ['='] + (text + "\n");
    assert prefix + name + "=" + text + "\n" == prefix + rest;
    AssignRest(name, text);
    NoComment(prefix, name, text + "\n");
    PrefixedLine(prefix, rest);
  }

  lemma PrefixedLine(prefix: string, rest: string)
    requires prefix + rest != "" && (prefix + rest)[0] != '#'
    ensures ParseLine(prefix, prefix + rest) == ParseAssign(rest)
  {
    hide ParseAssign;
    assert (prefix + rest)[|prefix|..] == rest && prefix <= prefix + rest;
  }

  lemma NoComment(prefix: string, name: string, rest: string)
    requires Word(prefix) && Word(name)
    ensures (prefix + (name + ['='] + rest))[0] != '#'
  {
    var line := prefix + (name + ['='] + rest);
    assert line[0] == if prefix != "" then prefix[0] else if name != "" then name[0] else '=';
    assert (prefix != "" ==> WordChar(prefix[0])) && (name != "" ==> WordChar(name[0]));
  }

  lemma AssignRest(name: string, text: string)
    requires Word(name) && '\n' !in text && !EndsInReturn(text)
    ensures ParseAssign(name + ['='] + (text + "\n")) == Assign(name, text)
  {
    hide Word, Find, CutLineEnd, EndsInReturn;
    var rest := name + ['='] + (text + "\n");
    WordHasNone(name, '=');
    FindFirst(name, '=', text + "\n");
    assert rest[..|name|] == name && rest[|name| + 1..] == text + "\n";
    CutWritten(text);
  }

  lemma CutWritten(text: string)
    requires '\n' !in text && !EndsInReturn(text)
    ensures CutLineEnd(text + "\n") == text
  {
    hide Find;
    FindFirst(text, '\n', "");
    assert text + "\n" == text + ['\n'] + "" && (text + "\n")[..|text|] == text;
    assert text != "" ==> (text + "\n")[|text| - 1] == text[|text| - 1];
  }

  // For a reader of assignments, such as make, what is off is a comment.
  lemma OffIsComment(prefix: string, s: Sym, text: string)
    requires IsLogic(s) && text in {"y", "m", "n"} && Word(prefix) && Word(s.name)
    ensures var line := PrintSymbol(prefix, s, text); line != "" && (line[0] == '#' <==> text == "n")
  {
    assert "y"[0] == 'y' && "m"[0] == 'm' && "n"[0] == 'n';
    if text != "n" {
      var line := prefix + s.name + "=" + text + "\n";
      assert line[0] == if prefix != "" then prefix[0] else if s.name != "" then s.name[0] else '=';
      assert (prefix != "" ==> WordChar(prefix[0])) && (s.name != "" ==> WordChar(s.name[0]));
    }
  }

  predicate EndsInReturn(text: string) { text != "" && text[|text| - 1] == '\r' }

  lemma UnsetLine(prefix: string, name: string)
    requires Word(prefix) && Word(name)
    ensures ParseLine(prefix, "# " + prefix + name + " is not set\n") == Unset(name)
  {
    var line := "# " + prefix + name + " is not set\n";
    WordHasNone(name, ' ');
    assert line[2..] == prefix + (name + " is not set\n");
    assert line[2 + |prefix|..] == name + [' '] + "is not set\n";
    FindFirst(name, ' ', "is not set\n");
    var rest := line[2 + |prefix|..];
    assert rest[..|name|] == name && rest[|name| + 1..] == "is not set\n";
    assert "is not set\n"[..|IS_NOT_SET|] == IS_NOT_SET;
  }

  lemma ValidIsPlain(typ: SymType, text: string)
    requires typ.TInt? || typ.THex?
    requires StringValid(typ, text)
    ensures '\n' !in text && !EndsInReturn(text)
  {
    var digits := if typ.TInt? then (if text[0] == '-' then text[1..] else text)
      else if |text| >= 2 && text[0] == '0' && (text[1] == 'x' || text[1] == 'X') then text[2..] else text;
    assert text == text[..|text| - |digits|] + digits;
    forall c <- digits
      ensures HexDigit(c)
    {
    }
    assert !HexDigit('\n') && !HexDigit('\r');
  }

  lemma EscapedKeepsLine(s: string)
    requires '\n' !in s
    ensures '\n' !in Escaped(s) && !EndsInReturn(Escaped(s))
  {
    BodyKeepsLine(s);
  }

  lemma {:induction false} BodyKeepsLine(s: string)
    requires '\n' !in s
    ensures '\n' !in EscapeBody(s)
  {
    if s != "" { BodyKeepsLine(s[1..]); }
  }

  // A value that fits on a line.
  predicate Printable(s: Sym, text: string) {
    if IsLogic(s) then text in {"y", "m", "n"}
    else IsText(s) && '\n' !in text && (TypeOf(s).TString? || !EndsInReturn(text))
  }

  // Reading the line written for a symbol sets that symbol to the value written, and nothing
  // else.
  lemma WrittenLineIsRead(prefix: string, names: Names, user: User, s: Sym, text: string)
    requires Named(prefix, names, s) && Printable(s, text)
    ensures ReadLine(prefix, names, user, PrintSymbol(prefix, s, text)) == Set(user, s, ReadBack(s, text))
  {
    hide ParseLine, Escaped, Unquote, EscapeBody;
    if IsLogic(s) && text == "n" {
      UnsetLine(prefix, s.name);
    } else if TypeOf(s).TString? {
      EscapedKeepsLine(text);
      AssignLine(prefix, s.name, Escaped(text));
      EscapedIsRead(text);
    } else {
      AssignLine(prefix, s.name, text);
    }
  }

  lemma EscapedIsRead(s: string)
    ensures Escaped(s) != "" && Escaped(s)[0] == '"' && Unquote(Escaped(s)[1..]) == Some(s)
  {
    assert Escaped(s)[1..] == EscapeBody(s) + "\"" + "";
    UnquoteEscaped(s, "");
  }

  // ----- whole files -----

  // The symbols of pick, each where the menus syms mention it first.
  function Listed(pick: set<Sym>, syms: seq<Option<Sym>>): seq<Sym> {
    if syms == [] then []
    else
      var n := |syms| - 1;
      if syms[n].Some? && syms[n].value in pick && syms[n] !in syms[..n]
      then Listed(pick, syms[..n]) + [syms[n].value] else Listed(pick, syms[..n])
  }

  lemma {:induction false} ListedOnce(pick: set<Sym>, syms: seq<Option<Sym>>)
    ensures forall s :: s in Listed(pick, syms) <==> s in pick && Some(s) in syms
    ensures forall i, j | 0 <= i < j < |Listed(pick, syms)| :: Listed(pick, syms)[i] != Listed(pick, syms)[j]
  {
    if syms != [] {
      var n := |syms| - 1;
      ListedOnce(pick, syms[..n]);
      assert syms == syms[..n] + [syms[n]];
    }
  }

  // The symbols stand in the order of their first mention: when the first of two is mentioned, the
  // second has not been.
  lemma {:induction false} ListedInOrder(pick: set<Sym>, syms: seq<Option<Sym>>, i: nat, j: nat) returns (k: nat)
    requires i < j < |Listed(pick, syms)|
    ensures k < |syms| && syms[k] == Some(Listed(pick, syms)[i]) && Some(Listed(pick, syms)[j]) !in syms[..k + 1]
  {
    var n := |syms| - 1;
    ListedOnce(pick, syms[..n]);
    if j < |Listed(pick, syms[..n])| {
      k := ListedInOrder(pick, syms[..n], i, j);
      assert syms[..n][..k + 1] == syms[..k + 1];
    } else {
      assert Listed(pick, syms[..n])[i] in Listed(pick, syms[..n]);
      assert Some(Listed(pick, syms[..n])[i]) in syms[..n];
      k :| 0 <= k < n && syms[..n][k] == Some(Listed(pick, syms[..n])[i]);
      assert forall x <- syms[..k + 1] :: x in syms[..n];
    }
  }

  type Texts = map<Sym, string>

  function Lines(prefix: string, list: seq<Sym>, texts: Texts): seq<string>
    requires forall s <- list :: s.Ref? && s in texts
  {
    if list == [] then []
    else
      assert forall s <- list[..|list| - 1] :: s in list;
      Lines(prefix, list[..|list| - 1], texts) + [PrintSymbol(prefix, list[|list| - 1], texts[list[|list| - 1]])]
  }

  // What reading a file written from list gives.
  function ReadBackAll(list: seq<Sym>, texts: Texts): User
    requires forall s <- list :: s in texts
  {
    map s | s in list && ReadBack(s, texts[s]).Some? :: ReadBack(s, texts[s]).value
  }

  lemma {:induction false} WrittenFileIsRead(prefix: string, names: Names, list: seq<Sym>, texts: Texts)
    requires forall s <- list :: s.Ref? && s in texts
    requires forall s <- list :: Named(prefix, names, s) && Printable(s, texts[s])
    requires forall i, j | 0 <= i < j < |list| :: list[i] != list[j]
    ensures ReadLines(prefix, names, Lines(prefix, list, texts)) == ReadBackAll(list, texts)
  {
    hide PrintSymbol, ReadLine, Named, Printable, ReadBack;
    if list != [] {
      var n := |list| - 1;
      var init, s := list[..n], list[n];
      assert list == init + [s];
      WrittenFileIsRead(prefix, names, init, texts);
      var lines := Lines(prefix, list, texts);
      assert lines[..|lines| - 1] == Lines(prefix, init, texts);
      WrittenLineIsRead(prefix, names, ReadBackAll(init, texts), s, texts[s]);
      SetOneMore(init, s, texts);
    }
  }

  lemma SetOneMore(init: seq<Sym>, s: Sym, texts: Texts)
    requires s !in init && s in texts && forall x <- init :: x in texts
    ensures Set(ReadBackAll(init, texts), s, ReadBack(s, texts[s])) == ReadBackAll(init + [s], texts)
  {
    hide ReadBack;
  }
}
