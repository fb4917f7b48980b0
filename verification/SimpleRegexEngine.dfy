/** The validator and the backtracking matcher of googletest's simple regular expressions. */
module SimpleRegexEngine {
  import opened SimpleRegex

  /** A C string: its characters are those in front of the terminating NUL. */
  type CString = s: string | '\0' !in s

  datatype Nullable = Null | Text(s: CString)

  /** Reading a C string at one of its positions or at its end. */
  function At(s: CString, i: nat): char { if i < |s| then s[i] else '\0' }

  // ---------------------------------------------------------------- validation

  /** The rest t of a regex is acceptable, p telling whether a repetition character may come first. */
  predicate Scan(t: string, p: bool) {
    if t == [] then true
    else if t[0] == '\\' then |t| > 1 && IsValidEscape(t[1]) && Scan(t[2..], true)
    else if t[0] == '^' then false
    else if t[0] == '$' then |t| == 1
    else if IsUnsupported(t[0]) then false
    else if IsRepeat(t[0]) then p && Scan(t[1..], false)
    else Scan(t[1..], true)
  }

  lemma ScanEscape(t: string, p: bool)
    requires |t| > 1 && t[0] == '\\'
    ensures Scan(t, p) <==> IsValidEscape(t[1]) && Scan(t[2..], true)
  {
  }

  /** What the validator demands of a character that is not a backslash, at the first or the last position or not,
      p telling whether it may be a repetition character. */
  predicate Plain(ch: char, first: bool, last: bool, p: bool) {
    (ch == '^' ==> first) && (ch == '$' ==> last) && !IsUnsupported(ch) && (IsRepeat(ch) ==> p)
  }

  predicate Repeatable(ch: char) { !(ch == '^' || ch == '$' || IsRepeat(ch)) }

  lemma ScanPlain(t: string, p: bool)
    requires t != [] && t[0] != '\\'
    ensures Scan(t, p) <==> Plain(t[0], false, |t| == 1, p) && Scan(t[1..], Repeatable(t[0]))
  {
  }

  predicate ScanAll(t: string) {
    if t != [] && t[0] == '^' then Scan(t[1..], false) else Scan(t, false)
  }

  lemma ScanAllPlain(t: string)
    requires t != [] && t[0] != '\\'
    ensures ScanAll(t) <==> Plain(t[0], true, |t| == 1, false) && Scan(t[1..], Repeatable(t[0]))
  {
    if t[0] != '^' { ScanPlain(t, false); }
  }

  ghost predicate IsTail(t: string, items: seq<Item>, eol: bool) {
    t == TailText(items, eol) && forall i :: 0 <= i < |items| ==> items[i].WellFormed()
  }

  /** t is the text of well-formed items, behind a repetition character if p allows one. */
  ghost predicate Continues(t: string, p: bool) {
    || (exists items, eol :: IsTail(t, items, eol))
    || (p && t != [] && IsRepeat(t[0]) && exists items, eol :: IsTail(t[1..], items, eol))
  }

  /** Putting an atom in front of an acceptable rest. */
  lemma AtomInFront(t: string, escaped: bool, c: char, rest: string)
    requires Item(escaped, c, Once).WellFormed() && t == Item(escaped, c, Once).Atom() + rest
    requires Continues(rest, true)
    ensures Continues(t, false)
  {
    if items, eol :| IsTail(rest, items, eol) {
      OnceInFront(t, escaped, c, rest, items, eol);
    } else {
      var items, eol :| IsTail(rest[1..], items, eol);
      RepeatedInFront(t, escaped, c, rest, items, eol);
    }
  }

  lemma OnceInFront(t: string, escaped: bool, c: char, rest: string, items: seq<Item>, eol: bool)
    requires Item(escaped, c, Once).WellFormed() && t == Item(escaped, c, Once).Atom() + rest
    requires IsTail(rest, items, eol)
    ensures Continues(t, false)
  {
    assert Once.Text() + rest == rest;
    ItemInFront(t, Item(escaped, c, Once), rest, items, eol);
  }

  lemma RepeatedInFront(t: string, escaped: bool, c: char, rest: string, items: seq<Item>, eol: bool)
    requires Item(escaped, c, Once).WellFormed() && t == Item(escaped, c, Once).Atom() + rest
    requires rest != [] && IsRepeat(rest[0]) && IsTail(rest[1..], items, eol)
    ensures Continues(t, false)
  {
    var r := RepetitionOf(rest[0]);
    assert r.Text() + rest[1..] == rest;
    ItemInFront(t, Item(escaped, c, r), rest[1..], items, eol);
  }

  function RepetitionOf(ch: char): (r: Repetition)
    ensures IsRepeat(ch) ==> r.Text() == [ch]
  { if ch == '?' then Optional else if ch == '*' then Star else Plus }

  lemma ItemInFront(t: string, item: Item, rest: string, items: seq<Item>, eol: bool)
    requires item.WellFormed() && t == item.Atom() + (item.repetition.Text() + rest) && IsTail(rest, items, eol)
    ensures IsTail(t, [item] + items, eol)
    ensures Continues(t, false)
  {
    var all := [item] + items;
    assert all[1..] == items;
    assert t == item.Text() + rest == TailText(all, eol);
    assert forall i :: 0 <= i < |all| ==> all[i] == if i == 0 then item else items[i-1];
    assert IsTail(t, all, eol);
  }

  /** The scan accepts exactly what continues a well-formed regex. */
  lemma {:induction false} ScanIffContinues(t: string, p: bool)
    ensures Scan(t, p) <==> Continues(t, p)
    decreases |t|
  {
    if t == [] {
      assert IsTail(t, [], false);
    } else if t[0] == '$' && |t| == 1 {
      assert IsTail(t, [], true);
    } else {
      var n := if t[0] == '\\' then 2 else 1;
      if |t| >= n && Item(n == 2, t[n-1], Once).WellFormed() {
        ScanIffContinues(t[n..], true);
        assert t == Item(n == 2, t[n-1], Once).Atom() + t[n..];
        if Scan(t[n..], true) { AtomInFront(t, n == 2, t[n-1], t[n..]); }
      }
      if IsRepeat(t[0]) && p {
        ScanIffContinues(t[1..], false);
      }
      if items, eol :| IsTail(t, items, eol) {
        HeadChars(items, eol);
        RestContinues(t, items, eol);
      }
    }
  }

  /** Behind the first atom of a text, the text continues. */
  lemma RestContinues(t: string, items: seq<Item>, eol: bool)
    requires IsTail(t, items, eol) && items != []
    ensures var n := |items[0].Atom()|;
      && |t| >= n && t[..n] == items[0].Atom()
      && Item(items[0].escaped, items[0].c, Once).WellFormed() && Continues(t[n..], true)
  {
    var item, n := items[0], |items[0].Atom()|;
    assert item.WellFormed();
    var rest := TailText(items[1..], eol);
    assert t == item.Atom() + (item.repetition.Text() + rest);
    assert t[n..] == item.repetition.Text() + rest;
    assert IsTail(rest, items[1..], eol) by {
      forall i | 0 <= i < |items[1..]| ensures items[1..][i].WellFormed() { assert items[i+1].WellFormed(); }
    }
    if item.repetition == Once { assert t[n..] == rest; } else { assert t[n..][1..] == rest; }
  }

  lemma ScanAllIffSimple(t: string)
    ensures ScanAll(t) <==> IsSimpleRegex(t)
  {
    var bol := t != [] && t[0] == '^';
    var rest := if bol then t[1..] else t;
    ScanIffContinues(rest, false);
    if items, eol :| IsTail(rest, items, eol) {
      var r := Regex(bol, items, eol);
      assert r.WellFormed() && r.Text() == t;
    }
    if r: Regex :| r.WellFormed() && r.Text() == t {
      TextParts(r);
      assert IsTail(rest, r.items, r.eol);
    }
  }

  /** The one-character expressions: ^ and $ are among them, repetition and bracket characters are not. */
  lemma SimpleCharacters(c: char)
    ensures IsSimpleRegex([c]) <==> c !in {'\\', '?', '*', '+', '(', ')', '[', ']', '{', '}', '|'}
  {
    var t := [c];
    ScanAllIffSimple(t);
    assert t[1..] == [] && Scan([], true) && Scan([], false);
    assert ScanAll(t) <==> c !in {'\\', '?', '*', '+', '(', ')', '[', ']', '{', '}', '|'};
  }

  /** The escape sequences: punctuation and eleven letters. */
  lemma SimpleEscapes(c: char)
    ensures IsSimpleRegex(['\\', c]) <==>
      || '!' <= c <= '/' || ':' <= c <= '@' || '[' <= c <= '`' || '{' <= c <= '~'
      || c in {'d', 'D', 'f', 'n', 'r', 's', 'S', 't', 'v', 'w', 'W'}
  {
    var t := ['\\', c];
    ScanAllIffSimple(t);
    ScanEscape(t, false);
    assert t[2..] == [] && Scan([], true);
    assert ScanAll(t) <==> IsValidEscape(c);
  }

  lemma ScanLast(x: char, p: bool)
    ensures Scan([x], p) <==>
      x !in {'\\', '^', '(', ')', '[', ']', '{', '}', '|'} && (x in {'?', '*', '+'} ==> p)
  {
    assert [x][1..] == [] && Scan([], true) && Scan([], false);
  }

  /** Behind a plain character, a repetition character is fine, and $ is at the end; behind a repetition character,
      another one is not. */
  lemma SimpleRepetitions(a: char, x: char, y: char)
    requires a !in {'\\', '^', '$', '?', '*', '+', '(', ')', '[', ']', '{', '}', '|'}
    ensures IsSimpleRegex([a, x]) <==> x !in {'\\', '^', '(', ')', '[', ']', '{', '}', '|'}
    ensures x in {'?', '*', '+'} ==>
      (IsSimpleRegex([a, x, y]) <==> y !in {'\\', '^', '?', '*', '+', '(', ')', '[', ']', '{', '}', '|'})
  {
    var t, u := [a, x], [a, x, y];
    ScanAllIffSimple(t);
    ScanAllIffSimple(u);
    assert t[1..] == [x] && u[1..] == [x, y] && u[1..][1..] == [y];
    ScanLast(x, true);
    ScanLast(y, false);
    assert ScanAll(t) <==> Scan([x], true);
    if IsRepeat(x) { assert Scan([x, y], true) <==> Scan([y], false); }
  }

  method ValidateRegex(regex: Nullable) returns (valid: bool)
    ensures valid <==> regex.Text? && IsSimpleRegex(regex.s)
  {
    if regex == Null {
      return false;
    }
    var s := regex.s;
    ScanAllIffSimple(s);
    valid := true;
    var prevRepeatable := false;
    var i := 0;
    ghost var accepted := ScanAll(s);
    ghost var t: string := s;
    while At(s, i) != '\0'
      invariant 0 <= i <= |s| && t == s[i..]
      invariant i == 0 ==> valid && !prevRepeatable
      invariant i > 0 ==> (accepted <==> valid && Scan(t, prevRepeatable))
      decreases |s| - i
    {
      if At(s, i) == '\\' {
        i := i + 1;
        if At(s, i) == '\0' {
          return false;
        }
        if !IsValidEscape(At(s, i)) {
          valid := false;
        }
        ScanEscape(t, prevRepeatable);
        prevRepeatable := true;
        t := t[2..];
      } else {
        var ch := At(s, i);
        ghost var valid0 := valid;
        if i == 0 { ScanAllPlain(t); } else { ScanPlain(t, prevRepeatable); }
        if ch == '^' && i > 0 {
          valid := false;
        } else if ch == '$' && At(s, i + 1) != '\0' {
          valid := false;
        } else if IsUnsupported(ch) {
          valid := false;
        } else if IsRepeat(ch) && !prevRepeatable {
          valid := false;
        }
        assert valid <==> valid0 && Plain(ch, i == 0, |t| == 1, prevRepeatable);
        prevRepeatable := !(ch == '^' || ch == '$' || IsRepeat(ch));
        t := t[1..];
      }
      i := i + 1;
    }
  }

  // ---------------------------------------------------------------- matching

  /** A word for the items is a word for the first item followed by a word for the others. */
  lemma HeadSplits(items: seq<Item>, eol: bool, s: string)
    requires items != []
    ensures MatchesAtHead(items, eol, s) <==>
            exists k :: 0 <= k <= |s| && InItem(items[0], s[..k]) && MatchesAtHead(items[1..], eol, s[k..])
  {
    if MatchesAtHead(items, eol, s) {
      var n :| 0 <= n <= |s| && (eol ==> n == |s|) && InLanguage(items, s[..n]);
      var k :| 0 <= k <= n && InItem(items[0], s[..n][..k]) && InLanguage(items[1..], s[..n][k..]);
      assert s[..n][..k] == s[..k] && s[..n][k..] == s[k..][..n-k];
      assert MatchesAtHead(items[1..], eol, s[k..]);
    }
    if k :| 0 <= k <= |s| && InItem(items[0], s[..k]) && MatchesAtHead(items[1..], eol, s[k..]) {
      var m :| 0 <= m <= |s[k..]| && (eol ==> m == |s[k..]|) && InLanguage(items[1..], s[k..][..m]);
      var n := k + m;
      assert s[..n][..k] == s[..k] && s[..n][k..] == s[k..][..m];
      assert InLanguage(items, s[..n]);
    }
  }

  /** The longest string the matcher can index: its counters are 64-bit. */
  const MAX_COUNT: nat := 0xFFFF_FFFF_FFFF_FFFE

  /** Tries the repetition with ever more characters, matching the rest of the regex behind it each time. */
  method MatchRepetitionAndRegexAtHead(escaped: bool, c: char, repeat: char, regex: CString, str: CString,
                                       ghost items: seq<Item>, ghost eol: bool)
    returns (r: bool)
    requires items != [] && escaped == items[0].escaped && c == items[0].c && [repeat] == items[0].repetition.Text()
    requires IsTail(regex, items[1..], eol) && |str| <= MAX_COUNT
    ensures r <==> MatchesAtHead(items, eol, str)
    decreases |regex|, 1
  {
    HeadSplits(items, eol, str);
    var minCount := if repeat == '+' then 1 else 0;
    var maxCount := if repeat == '?' then 1 else MAX_COUNT;
    var i := 0;
    while i <= maxCount
      invariant 0 <= i <= |str| + 1 && i <= maxCount + 1
      invariant i <= |str| || i > maxCount
      invariant forall j :: 0 <= j < i && j < |str| ==> items[0].Matches(str[j])
      invariant forall k :: 0 <= k < i && k <= |str| && InItem(items[0], str[..k]) ==>
                              !MatchesAtHead(items[1..], eol, str[k..])
      decreases maxCount + 1 - i
    {
      assert InItem(items[0], str[..i]) <==> i >= minCount;
      if i >= minCount {
        var tail := MatchRegexAtHead(regex, str[i..], items[1..], eol);
        if tail {
          return true;
        }
      }
      if At(str, i) == '\0' || !AtomMatchesChar(escaped, c, At(str, i)) {
        forall k | i < k <= |str| ensures !InItem(items[0], str[..k]) {
          assert str[..k][i] == str[i];
        }
        return false;
      }
      i := i + 1;
    }
    return false;
  }

  /** Does the regex match a prefix of str (all of str if it ends in $)? */
  method MatchRegexAtHead(regex: CString, str: CString, ghost items: seq<Item>, ghost eol: bool) returns (r: bool)
    requires IsTail(regex, items, eol) && |str| <= MAX_COUNT
    ensures r <==> MatchesAtHead(items, eol, str)
    decreases |regex|, 0
  {
    HeadFacts(regex, items, eol);
    NoItems(eol, str);
    if At(regex, 0) == '\0' {
      return true;
    }
    if At(regex, 0) == '$' {
      return At(str, 0) == '\0';
    }
    var escaped := At(regex, 0) == '\\';
    var rest := if escaped then regex[1..] else regex;
    if IsRepeat(At(rest, 1)) {
      assert rest[2..] == regex[if escaped then 3 else 2..];
      r := MatchRepetitionAndRegexAtHead(escaped, rest[0], At(rest, 1), rest[2..], str, items, eol);
    } else {
      OnceTakesOne(items, eol, str);
      if At(str, 0) == '\0' || !AtomMatchesChar(escaped, rest[0], At(str, 0)) {
        return false;
      }
      assert rest[1..] == regex[if escaped then 2 else 1..];
      r := MatchRegexAtHead(rest[1..], str[1..], items[1..], eol);
    }
  }

  /** Everything the matcher reads off the front of a regex. */
  lemma HeadFacts(t: string, items: seq<Item>, eol: bool)
    requires IsTail(t, items, eol)
    ensures items == [] ==> t == (if eol then ['$'] else [])
    ensures items != [] ==>
      var n := if items[0].escaped then 2 else 1;
      var repeated := |t| > n && IsRepeat(t[n]);
      && |t| >= n && t[0] != '$' && (items[0].escaped <==> t[0] == '\\') && t[n-1] == items[0].c
      && (repeated <==> items[0].repetition != Once)
      && (repeated ==> [t[n]] == items[0].repetition.Text() && IsTail(t[n+1..], items[1..], eol))
      && (!repeated ==> IsTail(t[n..], items[1..], eol))
  {
    HeadChars(items, eol);
    if items != [] {
      HeadRepetition(items, eol);
      DropItem(t, items, eol);
    }
  }

  lemma NoItems(eol: bool, s: string)
    ensures MatchesAtHead([], eol, s) <==> (eol ==> s == [])
  {
    assert InLanguage([], s[..0]);
  }

  /** An atom without repetition takes exactly the first character. */
  lemma OnceTakesOne(items: seq<Item>, eol: bool, s: string)
    requires items != [] && items[0].repetition == Once
    ensures MatchesAtHead(items, eol, s) <==>
            s != [] && items[0].Matches(s[0]) && MatchesAtHead(items[1..], eol, s[1..])
  {
    HeadSplits(items, eol, s);
    forall k | 0 <= k <= |s| ensures InItem(items[0], s[..k]) <==> k == 1 && items[0].Matches(s[0]) {}
  }

  /** The text behind the first item is the text of the others. */
  lemma DropItem(t: string, items: seq<Item>, eol: bool)
    requires IsTail(t, items, eol) && items != []
    ensures var n := |items[0].Text()|; |t| >= n && IsTail(t[n..], items[1..], eol)
  {
    assert t == items[0].Text() + TailText(items[1..], eol);
    forall i | 0 <= i < |items[1..]| ensures items[1..][i].WellFormed() { assert items[i+1].WellFormed(); }
  }

  /** Does the regex match some substring of str? The answer is that of the expression whose text the regex is. */
  method MatchRegexAnywhere(regex: Nullable, str: Nullable) returns (r: bool)
    requires regex.Text? ==> IsSimpleRegex(regex.s)
    requires str.Text? ==> |str.s| <= MAX_COUNT
    ensures regex == Null || str == Null ==> !r
    ensures regex.Text? && str.Text? ==>
      forall x: Regex :: x.WellFormed() && x.Text() == regex.s ==> (r <==> MatchesAnywhere(x, str.s))
  {
    if regex == Null || str == Null {
      return false;
    }
    ghost var x: Regex :| x.WellFormed() && x.Text() == regex.s;
    forall y: Regex | y.WellFormed() && y.Text() == regex.s ensures y == x { RegexTextInjective(x, y); }
    TextParts(x);
    if At(regex.s, 0) == '^' {
      AnchoredMatch(x, str.s);
      r := MatchRegexAtHead(regex.s[1..], str.s, x.items, x.eol);
    } else {
      FloatingMatch(x, str.s);
      r := MatchAtSomePosition(regex.s, str.s, x.items, x.eol);
    }
  }

  /** The text of an expression, without the ^, is the text of its items. */
  lemma TextParts(x: Regex)
    requires x.WellFormed()
    ensures var t := x.Text();
      && (x.bol <==> t != [] && t[0] == '^')
      && IsTail(if x.bol then t[1..] else t, x.items, x.eol)
  {
    HeadChars(x.items, x.eol);
    assert !x.bol ==> x.Text() == TailText(x.items, x.eol);
  }

  /** The loop of MatchRegexAnywhere: every position of str is tried, its end included. */
  method MatchAtSomePosition(regex: CString, str: CString, ghost items: seq<Item>, ghost eol: bool) returns (r: bool)
    requires IsTail(regex, items, eol) && |str| <= MAX_COUNT
    ensures r <==> exists i :: 0 <= i <= |str| && MatchesAtHead(items, eol, str[i..])
  {
    var i := 0;
    while true
      invariant 0 <= i <= |str|
      invariant forall j :: 0 <= j < i ==> !MatchesAtHead(items, eol, str[j..])
      decreases |str| - i
    {
      r := MatchRegexAtHead(regex, str[i..], items, eol);
      if r {
        return;
      }
      if At(str, i) == '\0' {
        break;
      }
      i := i + 1;
    }
  }

  lemma AnchoredMatch(x: Regex, s: string)
    requires x.bol
    ensures MatchesAnywhere(x, s) <==> MatchesAtHead(x.items, x.eol, s)
  {
    assert forall j :: 0 <= j <= |s| ==> s[0..j] == s[..j];
  }

  lemma FloatingMatch(x: Regex, s: string)
    requires !x.bol
    ensures MatchesAnywhere(x, s) <==> exists i :: 0 <= i <= |s| && MatchesAtHead(x.items, x.eol, s[i..])
  {
    forall i, j | 0 <= i <= j <= |s| ensures s[i..j] == s[i..][..j-i] {}
    if i :| 0 <= i <= |s| && MatchesAtHead(x.items, x.eol, s[i..]) {
      var k :| 0 <= k <= |s[i..]| && (x.eol ==> k == |s[i..]|) && InLanguage(x.items, s[i..][..k]);
      assert s[i..i+k] == s[i..][..k];
    }
  }

  // ---------------------------------------------------------------- full and partial matches

  /** The last character of the text is an escaped $, which is no anchor. */
  ghost predicate EndsInEscapedDollar(x: Regex) {
    !x.eol && x.items != [] && x.items[|x.items|-1] == Item(true, '$', Once)
  }

  /** The expression that Init builds for full matches: it leaves out the $ when the text already ends in one. */
  ghost function FullRegex(x: Regex): Regex { Regex(true, x.items, !EndsInEscapedDollar(x)) }

  class RE {
    var pattern: Nullable
    var fullPattern: Nullable
    var isValid: bool

    ghost predicate Valid()
      reads this
    {
      && (isValid <==> pattern.Text? && IsSimpleRegex(pattern.s))
      && (isValid ==> fullPattern.Text? && IsSimpleRegex(fullPattern.s))
      && (isValid ==>
            forall x: Regex :: x.WellFormed() && x.Text() == pattern.s ==> FullRegex(x).Text() == fullPattern.s)
    }

    constructor Init(regex: Nullable)
      ensures Valid() && pattern == regex
    {
      pattern := regex;
      fullPattern := Null;
      new;
      isValid := ValidateRegex(regex);
      if !isValid {
        return;
      }
      var s := regex.s;
      var full: CString := s;
      if At(s, 0) != '^' {
        full := ['^'] + s;
      }
      if s == [] || s[|s|-1] != '$' {
        full := full + ['$'];
      }
      fullPattern := Text(full);
      forall x: Regex | x.WellFormed() && x.Text() == s
        ensures FullRegex(x).WellFormed() && FullRegex(x).Text() == full
      {
        FullText(x, s, full);
      }
    }

    method PartialMatch(str: Nullable) returns (r: bool)
      requires Valid() && (str.Text? ==> |str.s| <= MAX_COUNT)
      ensures r ==> isValid && str.Text?
      ensures isValid && str.Text? ==>
        forall x: Regex :: x.WellFormed() && x.Text() == pattern.s ==> (r <==> MatchesAnywhere(x, str.s))
    {
      if !isValid {
        return false;
      }
      r := MatchRegexAnywhere(pattern, str);
    }

    method FullMatch(str: Nullable) returns (r: bool)
      requires Valid() && (str.Text? ==> |str.s| <= MAX_COUNT)
      ensures r ==> isValid && str.Text?
      ensures isValid && str.Text? ==>
        forall x: Regex :: x.WellFormed() && x.Text() == pattern.s ==> (r <==> MatchesAnywhere(FullRegex(x), str.s))
    {
      if !isValid {
        return false;
      }
      r := MatchRegexAnywhere(fullPattern, str);
    }
  }

  /** The full pattern is the text of FullRegex. */
  lemma FullText(x: Regex, s: string, full: string)
    requires x.WellFormed() && x.Text() == s
    requires full == (if s != [] && s[0] == '^' then s else ['^'] + s)
                     + (if s == [] || s[|s|-1] != '$' then ['$'] else [])
    ensures FullRegex(x).Text() == full
  {
    var t := TailText(x.items, x.eol);
    StartOfText(x, s);
    EndOfText(x, s);
    if x.eol || EndsInEscapedDollar(x) {
      assert ['^'] + t + [] == ['^'] + t;
    } else {
      AnchorText(x.items);
      assert ['^'] + t + ['$'] == ['^'] + (t + ['$']);
    }
  }

  lemma StartOfText(x: Regex, s: string)
    requires x.WellFormed() && x.Text() == s
    ensures (if s != [] && s[0] == '^' then s else ['^'] + s) == ['^'] + TailText(x.items, x.eol)
  {
    HeadChars(x.items, x.eol);
    assert !x.bol ==> s == TailText(x.items, x.eol);
  }

  /** The last character of a text is a $ iff the text ends in an anchor or in an escaped $. */
  lemma EndOfText(x: Regex, s: string)
    requires x.WellFormed() && x.Text() == s
    ensures s != [] && s[|s|-1] == '$' <==> x.eol || EndsInEscapedDollar(x)
  {
    var t := TailText(x.items, x.eol);
    TextEnd(x.items, x.eol);
    assert s == (if x.bol then "^" else "") + t;
    assert t != [] ==> s[|s|-1] == t[|t|-1];
  }

  lemma {:induction false} AnchorText(items: seq<Item>)
    ensures TailText(items, true) == TailText(items, false) + ['$']
    decreases |items|
  {
    if items != [] { AnchorText(items[1..]); }
  }

  lemma EmptyText(items: seq<Item>, eol: bool)
    requires TailText(items, eol) == []
    ensures items == [] && !eol
  {
  }

  /** The text of items ends in $ iff they end in an anchor or in an escaped $. */
  lemma {:induction false} TextEnd(items: seq<Item>, eol: bool)
    requires forall i :: 0 <= i < |items| ==> items[i].WellFormed()
    ensures var t := TailText(items, eol);
      (t != [] && t[|t|-1] == '$') <==> eol || (items != [] && items[|items|-1] == Item(true, '$', Once))
    decreases |items|
  {
    if items != [] {
      forall i | 0 <= i < |items[1..]| ensures items[1..][i].WellFormed() { assert items[i+1].WellFormed(); }
      TextEnd(items[1..], eol);
      assert items[0].WellFormed();
      var t, head, rest := TailText(items, eol), items[0].Text(), TailText(items[1..], eol);
      assert t == head + rest;
      if rest != [] {
        assert t[|t|-1] == rest[|rest|-1];
        assert |items| > 1 ==> items[|items|-1] == items[1..][|items|-2];
        assert |items| == 1 ==> eol;
      } else {
        EmptyText(items[1..], eol);
        assert t == head;
      }
    }
  }

  // ---------------------------------------------------------------- when a full match is a whole match

  /** A character that an atom matches. */
  function SampleChar(item: Item): char {
    if !item.escaped then item.c
    else match item.c
      case 'd' => '0'
      case 'D' => 'a'
      case 'f' => '\U{0C}'
      case 'n' => '\n'
      case 'r' => '\r'
      case 's' => ' '
      case 'S' => 'a'
      case 't' => '\t'
      case 'v' => '\U{0B}'
      case 'w' => 'a'
      case 'W' => ' '
      case _ => item.c
  }

  /** One character for each item. */
  function SampleWord(items: seq<Item>): string {
    if items == [] then [] else [SampleChar(items[0])] + SampleWord(items[1..])
  }

  /** Every well-formed expression has a word. */
  lemma {:induction false} SampleWordMatches(items: seq<Item>)
    requires forall i :: 0 <= i < |items| ==> items[i].WellFormed()
    ensures InLanguage(items, SampleWord(items))
    decreases |items|
  {
    if items != [] {
      assert items[0].WellFormed();
      forall i | 0 <= i < |items[1..]| ensures items[1..][i].WellFormed() { assert items[i+1].WellFormed(); }
      SampleWordMatches(items[1..]);
      var w := SampleWord(items);
      assert w[..1] == [SampleChar(items[0])] && w[1..] == SampleWord(items[1..]);
      assert InItem(items[0], w[..1]);
    }
  }

  /** Words of an expression that ends in an escaped $ end in $. */
  lemma {:induction false} EscapedDollarEnds(items: seq<Item>, s: string)
    requires items != [] && items[|items|-1] == Item(true, '$', Once) && InLanguage(items, s)
    ensures s != [] && s[|s|-1] == '$'
    decreases |items|
  {
    var k :| 0 <= k <= |s| && InItem(items[0], s[..k]) && InLanguage(items[1..], s[k..]);
    if |items| > 1 {
      EscapedDollarEnds(items[1..], s[k..]);
    } else {
      assert s[k..] == [] && s[..k] == s;
    }
  }

  /** The sample word of items whose text is a C string is one, and no longer than the text. */
  lemma {:induction false} SampleWordIsCString(items: seq<Item>, eol: bool)
    requires '\0' !in TailText(items, eol)
    ensures '\0' !in SampleWord(items) && |SampleWord(items)| <= |TailText(items, eol)|
    decreases |items|
  {
    if items != [] {
      var head, rest := items[0].Text(), TailText(items[1..], eol);
      assert TailText(items, eol) == head + rest;
      assert head[|items[0].Atom()|-1] == items[0].c && items[0].c in head;
      assert forall c <- head + rest :: c != '\0';
      assert forall c <- rest :: c in head + rest;
      SampleWordIsCString(items[1..], eol);
    }
  }

  /** FullMatch is a match of the whole string, for every string that the matcher can index, iff the pattern does not
      end in an escaped $. In that case it accepts every string that merely starts with a word. */
  lemma FullMatchIsWholeMatchIff(x: Regex)
    requires x.WellFormed() && '\0' !in x.Text() && |x.Text()| < MAX_COUNT
    ensures (forall s: CString :: |s| <= MAX_COUNT ==> (MatchesAnywhere(FullRegex(x), s) <==> InLanguage(x.items, s)))
            <==> !EndsInEscapedDollar(x)
  {
    if EndsInEscapedDollar(x) {
      var s := StartsWithWord(x);
    } else {
      forall s: CString ensures MatchesAnywhere(FullRegex(x), s) <==> InLanguage(x.items, s) {
        assert s[0..|s|] == s;
      }
    }
  }

  /** A string that such a pattern wrongly matches in full: one of its words with one more character. */
  lemma StartsWithWord(x: Regex) returns (s: CString)
    requires x.WellFormed() && '\0' !in x.Text() && |x.Text()| < MAX_COUNT && EndsInEscapedDollar(x)
    ensures |s| <= MAX_COUNT && MatchesAnywhere(FullRegex(x), s) && !InLanguage(x.items, s)
  {
    var w, t := SampleWord(x.items), TailText(x.items, x.eol);
    assert x.Text() == (if x.bol then "^" else "") + t;
    assert forall c <- t :: c in x.Text();
    SampleWordIsCString(x.items, x.eol);
    SampleWordMatches(x.items);
    s := w + ['a'];
    assert s[0..|w|] == w;
    assert MatchesAnywhere(FullRegex(x), s);
    if InLanguage(x.items, s) { EscapedDollarEnds(x.items, s); }
  }

  /** A concrete case: the pattern \$ fully matches "$$". */
  lemma EscapedDollarFullMatch()
    ensures var x := Regex(false, [Item(true, '$', Once)], false);
      x.WellFormed() && x.Text() == "\\$" && MatchesAnywhere(FullRegex(x), "$$") && !InLanguage(x.items, "$$")
  {
    var items := [Item(true, '$', Once)];
    var x := Regex(false, items, false);
    assert TailText(items[1..], false) == "";
    assert "$$"[0..1] == "$";
    assert "$"[..1] == "$" && "$"[1..] == "" && items[1..] == [];
    assert InItem(items[0], "$"[..1]);
    assert InLanguage(items, "$");
  }
}
