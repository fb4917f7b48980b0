/** googletest's simple regular expressions: their grammar and their language. */
module SimpleRegex {

  // ---------------------------------------------------------------- character classes

  predicate IsAsciiDigit(ch: char) { '0' <= ch <= '9' }

  predicate IsAsciiPunct(ch: char) {
    ch in {'^', '-', '!', '"', '#', '$', '%', '&', '\'', '(', ')', '*', '+', ',', '.', '/', ':', ';', '<', '=', '>',
           '?', '@', '[', '\\', ']', '_', '`', '{', '|', '}', '~'}
  }

  predicate IsRepeat(ch: char) { ch in {'?', '*', '+'} }

  predicate IsUnsupported(ch: char) { ch in {'(', ')', '[', ']', '{', '}', '|'} }

  predicate IsAsciiWhiteSpace(ch: char) { ch in {' ', '\U{0C}', '\n', '\r', '\t', '\U{0B}'} }

  predicate IsAsciiWordChar(ch: char) {
    'a' <= ch <= 'z' || 'A' <= ch <= 'Z' || '0' <= ch <= '9' || ch == '_'
  }

  /** "\c" is a supported escape sequence. */
  predicate IsValidEscape(c: char) { IsAsciiPunct(c) || c in {'d', 'D', 'f', 'n', 'r', 's', 'S', 't', 'v', 'w', 'W'} }

  predicate AtomMatchesChar(escaped: bool, patternChar: char, ch: char) {
    if escaped then
      match patternChar
      case 'd' => IsAsciiDigit(ch)
      case 'D' => !IsAsciiDigit(ch)
      case 'f' => ch == '\U{0C}'
      case 'n' => ch == '\n'
      case 'r' => ch == '\r'
      case 's' => IsAsciiWhiteSpace(ch)
      case 'S' => !IsAsciiWhiteSpace(ch)
      case 't' => ch == '\t'
      case 'v' => ch == '\U{0B}'
      case 'w' => IsAsciiWordChar(ch)
      case 'W' => !IsAsciiWordChar(ch)
      case _ => IsAsciiPunct(patternChar) && patternChar == ch
    else
      (patternChar == '.' && ch != '\n') || patternChar == ch
  }

  // ---------------------------------------------------------------- the grammar

  datatype Repetition = Once | Optional | Star | Plus
  {
    function Text(): string {
      match this
      case Once => ""
      case Optional => "?"
      case Star => "*"
      case Plus => "+"
    }

    predicate Allows(count: nat) {
      match this
      case Once => count == 1
      case Optional => count <= 1
      case Star => true
      case Plus => count >= 1
    }
  }

  /** One atom, c or \c, and how often it may occur. */
  datatype Item = Item(escaped: bool, c: char, repetition: Repetition)
  {
    predicate WellFormed() {
      if escaped then IsValidEscape(c)
      else c != '\\' && c != '^' && c != '$' && !IsRepeat(c) && !IsUnsupported(c)
    }

    function Atom(): string { if escaped then ['\\', c] else [c] }

    function Text(): string { Atom() + repetition.Text() }

    predicate Matches(ch: char) { AtomMatchesChar(escaped, c, ch) }
  }

  /** A simple regular expression: items between an optional ^ and an optional $. */
  datatype Regex = Regex(bol: bool, items: seq<Item>, eol: bool)
  {
    predicate WellFormed() { forall i :: 0 <= i < |items| ==> items[i].WellFormed() }

    function Text(): string { (if bol then "^" else "") + TailText(items, eol) }
  }

  function TailText(items: seq<Item>, eol: bool): string {
    if items == [] then (if eol then "$" else "") else items[0].Text() + TailText(items[1..], eol)
  }

  /** regex is the text of some simple regular expression. */
  ghost predicate IsSimpleRegex(regex: string) { exists r: Regex :: r.WellFormed() && r.Text() == regex }

  // ---------------------------------------------------------------- the language

  /** s consists of an allowed number of characters that the atom matches. */
  ghost predicate InItem(item: Item, s: string) {
    item.repetition.Allows(|s|) && forall i :: 0 <= i < |s| ==> item.Matches(s[i])
  }

  /** s can be cut into one word for each item. */
  ghost predicate InLanguage(items: seq<Item>, s: string) {
    if items == [] then s == []
    else exists k :: 0 <= k <= |s| && InItem(items[0], s[..k]) && InLanguage(items[1..], s[k..])
  }

  /** A prefix of s is in the language; the whole of s when the end is anchored. */
  ghost predicate MatchesAtHead(items: seq<Item>, eol: bool, s: string) {
    exists k :: 0 <= k <= |s| && (eol ==> k == |s|) && InLanguage(items, s[..k])
  }

  /** A substring of s is in the language, at the anchored ends of s. */
  ghost predicate MatchesAnywhere(r: Regex, s: string) {
    exists i, j :: 0 <= i <= j <= |s| && (r.bol ==> i == 0) && (r.eol ==> j == |s|) && InLanguage(r.items, s[i..j])
  }

  /** A single item has exactly its own words. */
  lemma OneItem(item: Item, s: string)
    ensures InLanguage([item], s) <==> InItem(item, s)
  {
    var items := [item];
    assert items[1..] == [] && s[..|s|] == s;
    if InItem(item, s) { assert InItem(items[0], s[..|s|]) && InLanguage(items[1..], s[|s|..]); }
    if k :| 0 <= k <= |s| && InItem(items[0], s[..k]) && InLanguage(items[1..], s[k..]) {
      assert s[k..] == [] && k == |s|;
    }
  }

  /** The characters that each atom stands for: a dot all but the newline, every other plain character itself, the
      class escapes their classes and all but these, the control escapes their character, and an escaped punctuation
      character itself. */
  lemma OneAtomLanguage(c: char, ch: char)
    ensures InLanguage([Item(false, c, Once)], [ch]) <==> if c == '.' then ch != '\n' else ch == c
    ensures InLanguage([Item(true, c, Once)], [ch]) <==>
      match c
      case 'd' => '0' <= ch <= '9'
      case 'D' => ch < '0' || '9' < ch
      case 's' => ch == ' ' || ch == '\U{0C}' || ch == '\n' || ch == '\r' || ch == '\t' || ch == '\U{0B}'
      case 'S' => ch != ' ' && ch != '\U{0C}' && ch != '\n' && ch != '\r' && ch != '\t' && ch != '\U{0B}'
      case 'w' => 'a' <= ch <= 'z' || 'A' <= ch <= 'Z' || '0' <= ch <= '9' || ch == '_'
      case 'W' => !('a' <= ch <= 'z') && !('A' <= ch <= 'Z') && !('0' <= ch <= '9') && ch != '_'
      case 'f' => ch == '\U{0C}'
      case 'n' => ch == '\n'
      case 'r' => ch == '\r'
      case 't' => ch == '\t'
      case 'v' => ch == '\U{0B}'
      case _ =>
        ch == c && ('!' <= c <= '/' || ':' <= c <= '@' || '[' <= c <= '`' || '{' <= c <= '~')
  {
    OneItem(Item(false, c, Once), [ch]);
    OneItem(Item(true, c, Once), [ch]);
    assert [ch][0] == ch;
  }

  /** A repeated atom stands for strings of its characters: at most one with ?, any number with *, at least one
      with +. */
  lemma RepetitionLanguage(item: Item, s: string)
    ensures InLanguage([item], s) <==>
      && (forall i :: 0 <= i < |s| ==> InLanguage([Item(item.escaped, item.c, Once)], [s[i]]))
      && (item.repetition == Once ==> |s| == 1)
      && (item.repetition == Optional ==> |s| <= 1)
      && (item.repetition == Plus ==> |s| >= 1)
  {
    OneItem(item, s);
    forall i | 0 <= i < |s|
      ensures InLanguage([Item(item.escaped, item.c, Once)], [s[i]]) <==> item.Matches(s[i])
    {
      OneItem(Item(item.escaped, item.c, Once), [s[i]]);
      assert [s[i]][0] == s[i];
    }
  }

  /** Anchored at both ends, an expression matches exactly the strings of its language. */
  lemma AnchoredAtBothEnds(items: seq<Item>, s: string)
    ensures MatchesAnywhere(Regex(true, items, true), s) <==> InLanguage(items, s)
  {
    assert s[0..|s|] == s;
  }

  /** What a repeated character means as it is written: ^c?$ stands for at most one c, ^c*$ for any number and ^c+$ for
      at least one. */
  lemma WrittenRepetition(c: char, x: char, s: string)
    requires c !in {'\\', '^', '$', '.', '?', '*', '+', '(', ')', '[', ']', '{', '}', '|'} && x in {'?', '*', '+'}
    ensures exists r: Regex ::
      && r.WellFormed() && r.Text() == ['^', c, x, '$']
      && (MatchesAnywhere(r, s) <==>
          (forall i :: 0 <= i < |s| ==> s[i] == c) && (x == '?' ==> |s| <= 1) && (x == '+' ==> |s| >= 1))
  {
    var item := Item(false, c, if x == '?' then Optional else if x == '*' then Star else Plus);
    var r := Regex(true, [item], true);
    assert TailText([item], true) == item.Text() + "$" by { assert [item][1..] == []; }
    assert r.WellFormed() && r.Text() == ['^', c, x, '$'];
    AnchoredAtBothEnds([item], s);
    RepetitionLanguage(item, s);
    forall i | 0 <= i < |s| ensures InLanguage([Item(false, c, Once)], [s[i]]) <==> s[i] == c {
      OneAtomLanguage(c, s[i]);
    }
  }

  // ---------------------------------------------------------------- the text determines the expression

  lemma {:induction false} TailTextInjective(a: seq<Item>, aEol: bool, b: seq<Item>, bEol: bool)
    requires forall i :: 0 <= i < |a| ==> a[i].WellFormed()
    requires forall i :: 0 <= i < |b| ==> b[i].WellFormed()
    requires TailText(a, aEol) == TailText(b, bEol)
    ensures a == b && aEol == bEol
    decreases |a|
  {
    SameHead(a, aEol, b, bEol);
    if a != [] {
      var t, n := TailText(a, aEol), |a[0].Text()|;
      assert TailText(a[1..], aEol) == t[n..] && TailText(b[1..], bEol) == t[n..];
      forall i | 0 <= i < |a[1..]| ensures a[1..][i].WellFormed() { assert a[i+1].WellFormed(); }
      forall i | 0 <= i < |b[1..]| ensures b[1..][i].WellFormed() { assert b[i+1].WellFormed(); }
      TailTextInjective(a[1..], aEol, b[1..], bEol);
      assert a == [a[0]] + a[1..] && b == [b[0]] + b[1..];
    }
  }

  lemma SameHead(a: seq<Item>, aEol: bool, b: seq<Item>, bEol: bool)
    requires forall i :: 0 <= i < |a| ==> a[i].WellFormed()
    requires forall i :: 0 <= i < |b| ==> b[i].WellFormed()
    requires TailText(a, aEol) == TailText(b, bEol)
    ensures if a == [] || b == [] then a == b && aEol == bEol else a[0] == b[0]
  {
    HeadChars(a, aEol);
    HeadChars(b, bEol);
    if a != [] && b != [] {
      var t, n := TailText(a, aEol), |a[0].Atom()|;
      assert a[0].escaped == b[0].escaped;
      assert a[0].c == t[n-1] == b[0].c;
      HeadRepetition(a, aEol);
      HeadRepetition(b, bEol);
    }
  }

  /** The character behind the first atom tells the repetition. */
  lemma HeadRepetition(items: seq<Item>, eol: bool)
    requires forall i :: 0 <= i < |items| ==> items[i].WellFormed()
    requires items != []
    ensures var t, n := TailText(items, eol), |items[0].Atom()|;
      items[0].repetition == if |t| > n && t[n] == '?' then Optional else if |t| > n && t[n] == '*' then Star
                             else if |t| > n && t[n] == '+' then Plus else Once
  {
    HeadChars(items, eol);
    var t, n := TailText(items, eol), |items[0].Atom()|;
    match items[0].repetition {
      case Once =>
      case Optional => assert t[n] == '?';
      case Star => assert t[n] == '*';
      case Plus => assert t[n] == '+';
    }
  }

  /** How the text of an item sequence starts. */
  lemma HeadChars(items: seq<Item>, eol: bool)
    requires forall i :: 0 <= i < |items| ==> items[i].WellFormed()
    ensures var t := TailText(items, eol);
      if items == [] then t == (if eol then ['$'] else [])
      else var n := |items[0].Atom()|;
        && |t| >= n && t[..n] == items[0].Atom() && t[0] != '$' && t[0] != '^'
        && items[0].escaped == (t[0] == '\\')
        && (items[0].repetition == Once ==> |t| > n ==> !IsRepeat(t[n]))
        && (items[0].repetition != Once ==> |t| > n && [t[n]] == items[0].repetition.Text())
  {
    if items != [] {
      var n, rest := |items[0].Atom()|, TailText(items[1..], eol);
      assert items[0].WellFormed();
      assert TailText(items, eol) == items[0].Atom() + (items[0].repetition.Text() + rest);
      if items[0].repetition == Once {
        assert items[0].repetition.Text() + rest == rest;
        RestStartsNoRepeat(items[1..], eol);
      }
    }
  }

  /** The text behind an item does not start with a repetition character. */
  lemma RestStartsNoRepeat(items: seq<Item>, eol: bool)
    requires forall i :: 0 <= i < |items| ==> items[i].WellFormed()
    ensures TailText(items, eol) != [] ==> !IsRepeat(TailText(items, eol)[0])
  {
    if items != [] {
      assert items[0].WellFormed();
      assert TailText(items, eol)[0] == items[0].Atom()[0];
    }
  }

  /** No string is the text of two expressions. */
  lemma RegexTextInjective(a: Regex, b: Regex)
    requires a.WellFormed() && b.WellFormed() && a.Text() == b.Text()
    ensures a == b
  {
    HeadChars(a.items, a.eol);
    HeadChars(b.items, b.eol);
    var n := if a.bol then 1 else 0;
    assert a.bol ==> a.Text()[0] == '^';
    assert b.bol ==> b.Text()[0] == '^';
    assert !a.bol ==> a.Text() == TailText(a.items, a.eol);
    assert !b.bol ==> b.Text() == TailText(b.items, b.eol);
    assert a.bol == b.bol;
    assert TailText(a.items, a.eol) == a.Text()[n..];
    assert TailText(b.items, b.eol) == b.Text()[n..];
    TailTextInjective(a.items, a.eol, b.items, b.eol);
  }
}
