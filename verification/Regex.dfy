/** googletest's own small regular expressions (utils/googletest/src/gtest-port.cc): the validator
    against a grammar, the backtracking matcher against the language, and RE's two ways to match.

    A C string is a sequence without '\0'; reading it one past its end gives the terminator and
    reading further is an error, so no method here looks beyond a terminator. */
module Regex {
  import opened Options

  ghost predicate CString(s: string) {
    forall i :: 0 <= i < |s| ==> s[i] != '\0'
  }

  function CharAt(s: string, i: nat): char
    requires i <= |s|
  {
    if i < |s| then s[i] else '\0'
  }

  // ----- characters -----

  predicate IsInSet(ch: char, str: string) {
    ch != '\0' && ch in str
  }

  predicate IsAsciiDigit(ch: char) {
    '0' <= ch <= '9'
  }

  predicate IsAsciiPunct(ch: char) {
    IsInSet(ch, "^-!\"#$%&'()*+,./:;<=>?@[\\]_`{|}~")
  }

  predicate IsRepeat(ch: char) {
    IsInSet(ch, "?*+")
  }

  predicate IsAsciiWhiteSpace(ch: char) {
    IsInSet(ch, " \U{000C}\n\r\t\U{000B}")
  }

  predicate IsAsciiWordChar(ch: char) {
    'a' <= ch <= 'z' || 'A' <= ch <= 'Z' || '0' <= ch <= '9' || ch == '_'
  }

  predicate IsValidEscape(c: char) {
    IsAsciiPunct(c) || IsInSet(c, "dDfnrsStvwW")
  }

  predicate AtomMatchesChar(escaped: bool, patternChar: char, ch: char) {
    if escaped then
      match patternChar
      case 'd' => IsAsciiDigit(ch)
      case 'D' => !IsAsciiDigit(ch)
      case 'f' => ch == '\U{000C}'
      case 'n' => ch == '\n'
      case 'r' => ch == '\r'
      case 's' => IsAsciiWhiteSpace(ch)
      case 'S' => !IsAsciiWhiteSpace(ch)
      case 't' => ch == '\t'
      case 'v' => ch == '\U{000B}'
      case 'w' => IsAsciiWordChar(ch)
      case 'W' => !IsAsciiWordChar(ch)
      case _ => IsAsciiPunct(patternChar) && patternChar == ch
    else
      (patternChar == '.' && ch != '\n') || patternChar == ch
  }

  // ----- what the classes are documented to be -----

  predicate Digit(ch: char) {
    ch in "0123456789"
  }

  predicate Letter(ch: char) {
    'a' <= ch <= 'z' || 'A' <= ch <= 'Z'
  }

  /** The meaning of an escape or a plain character as users are told it. */
  ghost predicate Documented(escaped: bool, c: char, ch: char) {
    if !escaped then (if c == '.' then ch != '\n' else ch == c)
    else if c == 'd' then Digit(ch)
    else if c == 'D' then !Digit(ch)
    else if c == 's' then ch in " \U{000C}\n\r\t\U{000B}"
    else if c == 'S' then ch !in " \U{000C}\n\r\t\U{000B}"
    else if c == 'w' then Letter(ch) || ch == '_' || Digit(ch)
    else if c == 'W' then !(Letter(ch) || ch == '_' || Digit(ch))
    else if c == 'f' then ch == '\U{000C}'
    else if c == 'n' then ch == '\n'
    else if c == 'r' then ch == '\r'
    else if c == 't' then ch == '\t'
    else if c == 'v' then ch == '\U{000B}'
    else ch == c
  }

  lemma DigitsAreListed(ch: char)
    ensures Digit(ch) <==> '0' <= ch <= '9'
  {
    if '0' <= ch <= '9' {
      assert "0123456789"[ch as int - '0' as int] == ch;
    }
  }

  lemma SpacesAreListed(ch: char)
    requires ch != '\0'
    ensures IsAsciiWhiteSpace(ch) <==> ch in " \U{000C}\n\r\t\U{000B}"
  {
  }

  lemma EscapesAreListed(c: char)
    requires c !in "dDfnrsStvwW"
    ensures IsValidEscape(c) ==> IsAsciiPunct(c)
  {
  }

  ghost predicate VisibleSymbol(c: char) {
    33 <= c as int <= 126 && !Letter(c) && !('0' <= c <= '9')
  }

  lemma PunctIsVisible(c: char)
    requires IsAsciiPunct(c)
    ensures VisibleSymbol(c)
  {
  }

  lemma LowSymbolIsPunct(c: char)
    requires 33 <= c as int <= 44
    ensures IsAsciiPunct(c)
  {
    var all := "^-!\"#$%&'()*+,./:;<=>?@[\\]_`{|}~";
    assert all[c as int - 31] == c;
  }

  lemma VisibleIsPunct(c: char)
    requires VisibleSymbol(c)
    ensures IsAsciiPunct(c)
  {
    var all := "^-!\"#$%&'()*+,./:;<=>?@[\\]_`{|}~";
    var code := c as int;
    if code <= 44 {
      LowSymbolIsPunct(c);
    } else if code == 45 {
      assert all[1] == c;
    } else if code <= 47 {
      assert all[code - 32] == c;
    } else if code <= 64 {
      assert all[code - 42] == c;
    } else if code <= 93 {
      assert all[code - 68] == c;
    } else if 95 <= code <= 96 {
      assert all[code - 69] == c;
    } else if 123 <= code {
      assert all[code - 95] == c;
    } else {
      assert all[0] == c;
    }
  }

  /** What may follow a backslash: every visible ASCII character that is no letter or digit, and the
      letters d, D, f, n, r, s, S, t, v, w, W. */
  lemma ValidEscapesAreListed(c: char)
    ensures IsValidEscape(c) <==>
      || (33 <= c as int <= 126 && !('a' <= c <= 'z' || 'A' <= c <= 'Z' || '0' <= c <= '9'))
      || c == 'd' || c == 'D' || c == 'f' || c == 'n' || c == 'r' || c == 's' || c == 'S' || c == 't'
      || c == 'v' || c == 'w' || c == 'W'
  {
    hide IsAsciiPunct;
    if IsAsciiPunct(c) {
      PunctIsVisible(c);
    } else if VisibleSymbol(c) {
      VisibleIsPunct(c);
    }
  }

  /** A valid atom matches what it is documented to match. */
  lemma AtomIsDocumented(escaped: bool, c: char, ch: char)
    requires escaped ==> IsValidEscape(c)
    requires ch != '\0'
    ensures AtomMatchesChar(escaped, c, ch) <==> Documented(escaped, c, ch)
  {
    hide Digit, IsInSet;
    DigitsAreListed(ch);
    SpacesAreListed(ch);
    if c !in "dDfnrsStvwW" {
      EscapesAreListed(c);
    }
  }

  // ----- the grammar -----

  datatype Repeat = Once | AtMostOnce | AnyNumber | AtLeastOnce

  /** An atom, escaped or not, and how often it may occur. */
  datatype Item = Item(escaped: bool, ch: char, repeat: Repeat)

  /** An expression: an optional ^, items, an optional $. */
  datatype Expr = Expr(caret: bool, items: seq<Item>, dollar: bool)

  ghost predicate AtomOk(escaped: bool, ch: char) {
    if escaped then IsValidEscape(ch) else ch != '\0' && ch !in "\\^$()[]{}|?*+"
  }

  ghost predicate WellFormed(e: Expr) {
    forall i :: 0 <= i < |e.items| ==> AtomOk(e.items[i].escaped, e.items[i].ch)
  }

  function PrintRepeat(r: Repeat): string {
    match r
    case Once => ""
    case AtMostOnce => "?"
    case AnyNumber => "*"
    case AtLeastOnce => "+"
  }

  function PrintItem(item: Item): string {
    (if item.escaped then "\\" else "") + [item.ch] + PrintRepeat(item.repeat)
  }

  function PrintItems(items: seq<Item>, dollar: bool): string {
    if items == [] then if dollar then "$" else ""
    else PrintItem(items[0]) + PrintItems(items[1..], dollar)
  }

  function Print(e: Expr): string {
    (if e.caret then "^" else "") + PrintItems(e.items, e.dollar)
  }

  /** The expressions with a meaning are those that are written out from the grammar. */
  ghost predicate IsRegex(regex: string) {
    exists e: Expr :: WellFormed(e) && Print(e) == regex
  }

  // ----- the language -----

  ghost predicate CountOk(r: Repeat, n: nat) {
    match r
    case Once => n == 1
    case AtMostOnce => n <= 1
    case AnyNumber => true
    case AtLeastOnce => n >= 1
  }

  ghost predicate ItemMatches(item: Item, s: string) {
    CountOk(item.repeat, |s|) && forall i :: 0 <= i < |s| ==> Documented(item.escaped, item.ch, s[i])
  }

  /** The items, one after the other, match the whole of `s`. */
  ghost predicate Matches(items: seq<Item>, s: string)
    decreases |items|
  {
    if items == [] then s == []
    else exists j :: 0 <= j <= |s| && ItemMatches(items[0], s[..j]) && Matches(items[1..], s[j..])
  }

  /** Some substring of `s`, at the beginning or the end where the expression says so, is matched. */
  ghost predicate Finds(e: Expr, s: string) {
    exists i, k :: 0 <= i <= k <= |s| && (e.caret ==> i == 0) && (e.dollar ==> k == |s|) && Matches(e.items, s[i..k])
  }

  // ----- the matcher -----

  /** The items match a prefix of `s`, the whole of it if the expression ends in $. */
  ghost predicate MatchesHead(items: seq<Item>, dollar: bool, s: string) {
    exists k :: 0 <= k <= |s| && (dollar ==> k == |s|) && Matches(items, s[..k])
  }

  /** The item, some number of times, and then the others match the head of `s`. */
  ghost predicate Repeats(item: Item, items: seq<Item>, dollar: bool, s: string) {
    exists j :: 0 <= j <= |s| && ItemMatches(item, s[..j]) && MatchesHead(items, dollar, s[j..])
  }

  lemma HeadIsStepwise(items: seq<Item>, dollar: bool, s: string)
    requires items != []
    ensures MatchesHead(items, dollar, s) <==> Repeats(items[0], items[1..], dollar, s)
  {
    if MatchesHead(items, dollar, s) {
      var k :| 0 <= k <= |s| && (dollar ==> k == |s|) && Matches(items, s[..k]);
      var t := s[..k];
      var j :| 0 <= j <= |t| && ItemMatches(items[0], t[..j]) && Matches(items[1..], t[j..]);
      assert t[..j] == s[..j] && t[j..] == s[j..][..k - j];
    }
    if Repeats(items[0], items[1..], dollar, s) {
      var j :| 0 <= j <= |s| && ItemMatches(items[0], s[..j]) && MatchesHead(items[1..], dollar, s[j..]);
      HeadExtends(items, dollar, s, j);
    }
  }

  lemma HeadExtends(items: seq<Item>, dollar: bool, s: string, j: nat)
    requires items != [] && j <= |s| && ItemMatches(items[0], s[..j]) && MatchesHead(items[1..], dollar, s[j..])
    ensures MatchesHead(items, dollar, s)
  {
    var k :| 0 <= k <= |s[j..]| && (dollar ==> k == |s[j..]|) && Matches(items[1..], s[j..][..k]);
    var t := s[..j + k];
    assert t[..j] == s[..j] && t[j..] == s[j..][..k];
    assert Matches(items, t);
  }

  /** An item that occurs once takes the first character. */
  lemma OnceStep(items: seq<Item>, dollar: bool, s: string)
    requires items != [] && items[0].repeat == Once
    ensures Repeats(items[0], items[1..], dollar, s)
       <==> s != [] && Documented(items[0].escaped, items[0].ch, s[0]) && MatchesHead(items[1..], dollar, s[1..])
  {
    hide MatchesHead, Documented;
    if s != [] && Documented(items[0].escaped, items[0].ch, s[0]) && MatchesHead(items[1..], dollar, s[1..]) {
      assert ItemMatches(items[0], s[..1]);
    }
    if Repeats(items[0], items[1..], dollar, s) {
      var j :| 0 <= j <= |s| && ItemMatches(items[0], s[..j]) && MatchesHead(items[1..], dollar, s[j..]);
      assert j == |s[..j]| == 1 && s[..j][0] == s[0];
    }
  }

  /** The first character is one more occurrence, or the first. */
  lemma OneMoreOccurrence(item: Item, s: string, j: nat)
    requires 0 < j <= |s| && item.repeat.AnyNumber?
    ensures ItemMatches(item, s[..j]) <==> Documented(item.escaped, item.ch, s[0]) && ItemMatches(item, s[1..][..j - 1])
  {
    hide Documented;
    var rest := s[1..][..j - 1];
    assert forall i :: 0 <= i < |rest| ==> rest[i] == s[i + 1];
    if ItemMatches(item, s[..j]) {
      assert s[..j][0] == s[0];
      forall i | 0 <= i < |rest| ensures Documented(item.escaped, item.ch, rest[i]) {
        assert s[..j][i + 1] == rest[i];
      }
    } else if Documented(item.escaped, item.ch, s[0]) {
      var i :| 0 <= i < j && !Documented(item.escaped, item.ch, s[..j][i]);
      assert rest[i - 1] == s[..j][i];
    }
  }

  lemma AnyNumberByFirst(item: Item, items: seq<Item>, dollar: bool, s: string)
    requires item.repeat.AnyNumber?
    ensures Repeats(item, items, dollar, s) <==>
      || MatchesHead(items, dollar, s)
      || (s != [] && Documented(item.escaped, item.ch, s[0]) && Repeats(item, items, dollar, s[1..]))
  {
    hide MatchesHead, Documented;
    if MatchesHead(items, dollar, s) {
      assert s[0..] == s && ItemMatches(item, s[..0]);
    }
    if s != [] && Documented(item.escaped, item.ch, s[0]) && Repeats(item, items, dollar, s[1..]) {
      var j :| 0 <= j <= |s[1..]| && ItemMatches(item, s[1..][..j]) && MatchesHead(items, dollar, s[1..][j..]);
      OneMoreOccurrence(item, s, j + 1);
      assert s[1..][j..] == s[j + 1..];
    }
    if Repeats(item, items, dollar, s) {
      var j :| 0 <= j <= |s| && ItemMatches(item, s[..j]) && MatchesHead(items, dollar, s[j..]);
      if j == 0 {
        assert s[j..] == s;
      } else {
        OneMoreOccurrence(item, s, j);
        assert s[j..] == s[1..][j - 1..];
      }
    }
  }

  lemma AtLeastOnceByFirst(item: Item, items: seq<Item>, dollar: bool, s: string)
    requires item.repeat.AtLeastOnce?
    ensures Repeats(item, items, dollar, s) <==>
      s != [] && Documented(item.escaped, item.ch, s[0]) && Repeats(item.(repeat := AnyNumber), items, dollar, s[1..])
  {
    hide MatchesHead, Documented;
    var any := item.(repeat := AnyNumber);
    if s != [] && Documented(item.escaped, item.ch, s[0]) && Repeats(any, items, dollar, s[1..]) {
      var j :| 0 <= j <= |s[1..]| && ItemMatches(any, s[1..][..j]) && MatchesHead(items, dollar, s[1..][j..]);
      OneMoreOccurrence(any, s, j + 1);
      assert s[1..][j..] == s[j + 1..] && ItemMatches(item, s[..j + 1]);
    }
    if Repeats(item, items, dollar, s) {
      var j :| 0 <= j <= |s| && ItemMatches(item, s[..j]) && MatchesHead(items, dollar, s[j..]);
      OneMoreOccurrence(any, s, j);
      assert s[j..] == s[1..][j - 1..];
    }
  }

  lemma AtMostOnceByFirst(item: Item, items: seq<Item>, dollar: bool, s: string)
    requires item.repeat.AtMostOnce?
    ensures Repeats(item, items, dollar, s) <==>
      || MatchesHead(items, dollar, s)
      || (s != [] && Documented(item.escaped, item.ch, s[0]) && MatchesHead(items, dollar, s[1..]))
  {
    hide MatchesHead, Documented;
    if MatchesHead(items, dollar, s) {
      assert s[0..] == s && ItemMatches(item, s[..0]);
    }
    if s != [] && Documented(item.escaped, item.ch, s[0]) && MatchesHead(items, dollar, s[1..]) {
      assert ItemMatches(item, s[..1]);
    }
    if Repeats(item, items, dollar, s) {
      var j :| 0 <= j <= |s| && ItemMatches(item, s[..j]) && MatchesHead(items, dollar, s[j..]);
      assert j == |s[..j]| <= 1 && if j == 0 then s[j..] == s else s[..j][0] == s[0];
    }
  }

  /** What the marks after an atom mean, by what they do with the first character: `?` tries without the
      atom or with it once, `*` without it or with it and then again, `+` with it and then as `*`. */
  lemma RepeatsByFirst(item: Item, items: seq<Item>, dollar: bool, s: string)
    ensures var first := s != [] && Documented(item.escaped, item.ch, s[0]);
      && (PrintRepeat(item.repeat) == "" ==>
            (Repeats(item, items, dollar, s) <==> first && MatchesHead(items, dollar, s[1..])))
      && (PrintRepeat(item.repeat) == "?" ==>
            (Repeats(item, items, dollar, s) <==>
              MatchesHead(items, dollar, s) || (first && MatchesHead(items, dollar, s[1..]))))
      && (PrintRepeat(item.repeat) == "*" ==>
            (Repeats(item, items, dollar, s) <==>
              MatchesHead(items, dollar, s) || (first && Repeats(item, items, dollar, s[1..]))))
      && (PrintRepeat(item.repeat) == "+" ==>
            (Repeats(item, items, dollar, s) <==>
              first && Repeats(item.(repeat := AnyNumber), items, dollar, s[1..])))
  {
    hide MatchesHead, Documented, Repeats;
    match item.repeat
    case Once =>
      assert ([item] + items)[1..] == items;
      OnceStep([item] + items, dollar, s);
    case AtMostOnce => AtMostOnceByFirst(item, items, dollar, s);
    case AnyNumber => AnyNumberByFirst(item, items, dollar, s);
    case AtLeastOnce => AtLeastOnceByFirst(item, items, dollar, s);
  }

  lemma NoItemsLeft(dollar: bool, s: string)
    ensures MatchesHead([], dollar, s) <==> !dollar || s == []
  {
    assert s[..0] == [];
    if !dollar || s == [] {
      assert Matches([], s[..0]);
    }
  }

  /** What follows the backslash of an escape. */
  function AtomStart(escaped: bool, regex: string): string {
    if escaped && regex != [] then regex[1..] else regex
  }

  /** The first characters of a printed item. */
  lemma PrintedItem(item: Item, tail: string)
    requires AtomOk(item.escaped, item.ch)
    ensures var regex := PrintItem(item) + tail;
      && regex != [] && regex[0] !in "$^" && (regex[0] == '\\' <==> item.escaped)
      && AtomStart(item.escaped, regex) == [item.ch] + (PrintRepeat(item.repeat) + tail)
  {
    hide PrintRepeat;
    var rest := [item.ch] + (PrintRepeat(item.repeat) + tail);
    if item.escaped {
      assert PrintItem(item) + tail == ['\\'] + rest;
    } else {
      assert PrintItem(item) + tail == rest;
    }
  }

  /** What the first characters of a printed expression are. */
  lemma PrintedHead(items: seq<Item>, dollar: bool)
    requires WellFormed(Expr(false, items, dollar))
    ensures var regex := PrintItems(items, dollar);
      if items == [] then regex == if dollar then "$" else ""
      else
        var rest := AtomStart(items[0].escaped, regex);
        && regex != [] && regex[0] !in "$^" && (regex[0] == '\\' <==> items[0].escaped) && rest != []
        && rest[0] == items[0].ch && items[0].ch != '\0'
        && (if items[0].repeat == Once then rest[1..] == PrintItems(items[1..], dollar)
            else |rest| > 1 && [rest[1]] == PrintRepeat(items[0].repeat) && rest[2..] == PrintItems(items[1..], dollar))
  {
    if items != [] {
      hide AtomStart, PrintItem;
      PrintedItem(items[0], PrintItems(items[1..], dollar));
      var rest := AtomStart(items[0].escaped, PrintItems(items, dollar));
      assert rest[1..] == PrintRepeat(items[0].repeat) + PrintItems(items[1..], dollar);
    }
  }

  /** An item that occurs once is not followed by a repetition. */
  lemma PrintedOnce(items: seq<Item>, dollar: bool)
    requires WellFormed(Expr(false, items, dollar))
    ensures !IsRepeat(CharAt(PrintItems(items, dollar), 0))
  {
    PrintedHead(items, dollar);
    if items != [] {
      assert AtomOk(items[0].escaped, items[0].ch);
    }
  }

  lemma SomeRepetition(item: Item, items: seq<Item>, dollar: bool, s: string, i: nat)
    requires i <= |s| && MatchesHead(items, dollar, s[i..]) && CountOk(item.repeat, i)
    requires forall j :: 0 <= j < i ==> Documented(item.escaped, item.ch, s[j])
    ensures Repeats(item, items, dollar, s)
  {
    hide Documented, CountOk;
    assert ItemMatches(item, s[..i]);
  }

  /** Nothing more to try after `i` occurrences. */
  lemma NoRepetition(item: Item, items: seq<Item>, dollar: bool, s: string, i: nat, minCount: nat)
    requires i <= |s| && forall j :: minCount <= j <= i ==> !MatchesHead(items, dollar, s[j..])
    requires forall n: nat :: CountOk(item.repeat, n) ==> n >= minCount
    requires i == |s| || !Documented(item.escaped, item.ch, s[i]) || forall n: nat :: CountOk(item.repeat, n) ==> n <= i
    ensures !Repeats(item, items, dollar, s)
  {
    hide MatchesHead, Documented, CountOk;
  }

  /** No string a program can hold is longer. */
  const MAX_SIZE: nat := 0xFFFF_FFFF_FFFF_FFFF

  method MatchRepetitionAndRegexAtHead(ghost item: Item, ghost items: seq<Item>, ghost dollar: bool,
      escaped: bool, c: char, repeat: char, regex: string, str: string) returns (r: bool)
    requires CString(str) && |str| < MAX_SIZE
    requires WellFormed(Expr(false, items, dollar)) && regex == PrintItems(items, dollar)
    requires escaped ==> IsValidEscape(c)
    requires item.escaped == escaped && item.ch == c && item.repeat != Once && PrintRepeat(item.repeat) == [repeat]
    ensures r <==> Repeats(item, items, dollar, str)
    decreases |items|, 1
  {
    hide MatchesHead, AtomMatchesChar, Documented, PrintItems, WellFormed, IsValidEscape, Repeats;
    var minCount := if repeat == '+' then 1 else 0;
    var maxCount := if repeat == '?' then 1 else MAX_SIZE - 1;
    var i := 0;
    while i <= maxCount
      invariant i <= |str| && i <= maxCount + 1
      invariant forall j :: 0 <= j < i ==> Documented(escaped, c, str[j])
      invariant forall j :: minCount <= j < i ==> !MatchesHead(items, dollar, str[j..])
    {
      if i >= minCount {
        var tail := MatchRegexAtHead(items, dollar, regex, str[i..]);
        if tail {
          SomeRepetition(item, items, dollar, str, i);
          return true;
        }
      }
      if i < |str| {
        AtomIsDocumented(escaped, c, str[i]);
      }
      if CharAt(str, i) == '\0' || !AtomMatchesChar(escaped, c, CharAt(str, i)) {
        NoRepetition(item, items, dollar, str, i, minCount);
        return false;
      }
      i := i + 1;
    }
    NoRepetition(item, items, dollar, str, maxCount, minCount);
    return false;
  }

  /** Does the expression, without its ^, match a prefix of `str`? */
  method MatchRegexAtHead(ghost items: seq<Item>, ghost dollar: bool, regex: string, str: string) returns (r: bool)
    requires CString(str) && |str| < MAX_SIZE
    requires WellFormed(Expr(false, items, dollar)) && regex == PrintItems(items, dollar)
    ensures r <==> MatchesHead(items, dollar, str)
    decreases |items|, 0
  {
    hide MatchesHead, AtomMatchesChar, Documented, PrintItems, ItemMatches, IsValidEscape;
    PrintedHead(items, dollar);
    NoItemsLeft(dollar, str);
    if CharAt(regex, 0) == '\0' {
      return true;
    }
    if CharAt(regex, 0) == '$' {
      return CharAt(str, 0) == '\0';
    }
    HeadIsStepwise(items, dollar, str);
    PrintedOnce(items[1..], dollar);
    assert AtomOk(items[0].escaped, items[0].ch);
    var escaped := CharAt(regex, 0) == '\\';
    var rest := if escaped then regex[1..] else regex;
    if IsRepeat(CharAt(rest, 1)) {
      r := MatchRepetitionAndRegexAtHead(items[0], items[1..], dollar,
        escaped, CharAt(rest, 0), CharAt(rest, 1), rest[2..], str);
    } else {
      OnceStep(items, dollar, str);
      if str != [] {
        AtomIsDocumented(escaped, CharAt(rest, 0), str[0]);
      }
      if CharAt(str, 0) != '\0' && AtomMatchesChar(escaped, CharAt(rest, 0), CharAt(str, 0)) {
        r := MatchRegexAtHead(items[1..], dollar, rest[1..], str[1..]);
      } else {
        r := false;
      }
    }
  }

  lemma FindsFrom(e: Expr, s: string)
    ensures Finds(e, s) <==>
      if e.caret then MatchesHead(e.items, e.dollar, s)
      else exists i :: 0 <= i <= |s| && MatchesHead(e.items, e.dollar, s[i..])
  {
    hide Matches;
    if Finds(e, s) {
      var i, k :| 0 <= i <= k <= |s| && (e.caret ==> i == 0) && (e.dollar ==> k == |s|) && Matches(e.items, s[i..k]);
      assert s[i..][..k - i] == s[i..k];
      assert MatchesHead(e.items, e.dollar, s[i..]);
      assert s[0..] == s;
    }
    forall i | 0 <= i <= |s| && MatchesHead(e.items, e.dollar, s[i..]) && (e.caret ==> i == 0) ensures Finds(e, s) {
      var k :| 0 <= k <= |s[i..]| && (e.dollar ==> k == |s[i..]|) && Matches(e.items, s[i..][..k]);
      assert s[i..][..k] == s[i..i + k];
    }
    assert s[0..] == s;
  }

  /** A printed expression begins with ^ iff that is its ^. */
  lemma PrintedCaret(e: Expr)
    requires WellFormed(e)
    ensures CharAt(Print(e), 0) == '^' <==> e.caret
    ensures e.caret ==> Print(e)[1..] == PrintItems(e.items, e.dollar)
    ensures !e.caret ==> Print(e) == PrintItems(e.items, e.dollar)
  {
    assert WellFormed(Expr(false, e.items, e.dollar));
    PrintedHead(e.items, e.dollar);
  }

  /** Does the expression match any substring of `str`? */
  method MatchRegexAnywhere(ghost e: Expr, regex: Option<string>, str: Option<string>) returns (r: bool)
    requires regex.Some? ==> WellFormed(e) && regex.value == Print(e)
    requires str.Some? ==> CString(str.value) && |str.value| < MAX_SIZE
    ensures r <==> regex.Some? && str.Some? && Finds(e, str.value)
  {
    if regex.None? || str.None? {
      return false;
    }
    hide MatchesHead, Finds, Print, PrintItems;
    var s := str.value;
    PrintedCaret(e);
    FindsFrom(e, s);
    if CharAt(regex.value, 0) == '^' {
      r := MatchRegexAtHead(e.items, e.dollar, regex.value[1..], s);
      return;
    }
    var i := 0;
    while true
      invariant i <= |s|
      invariant forall j :: 0 <= j < i ==> !MatchesHead(e.items, e.dollar, s[j..])
      decreases |s| - i
    {
      var found := MatchRegexAtHead(e.items, e.dollar, regex.value, s[i..]);
      if found {
        return true;
      }
      if CharAt(s, i) == '\0' {
        return false;
      }
      i := i + 1;
    }
  }

  // ----- the validator -----

  /** The rest of an expression is in order, given whether ?, * or + may come next. */
  predicate RestOk(s: string, prevRepeatable: bool)
    decreases |s|
  {
    if s == [] then true
    else if s[0] == '\\' then |s| >= 2 && IsValidEscape(s[1]) && RestOk(s[2..], true)
    else
      && s[0] != '^' && (s[0] == '$' ==> |s| == 1) && !IsInSet(s[0], "()[]{}|")
      && (IsRepeat(s[0]) ==> prevRepeatable)
      && RestOk(s[1..], !IsInSet(s[0], "^$?*+"))
  }

  predicate AllOk(s: string) {
    if s != [] && s[0] == '^' then RestOk(s[1..], false) else RestOk(s, false)
  }

  /** Where no repetition follows, it makes no difference whether one may. */
  lemma NothingToRepeat(s: string)
    requires !IsRepeat(CharAt(s, 0))
    ensures RestOk(s, true) == RestOk(s, false)
  {
  }

  lemma RepeatIsOk(r: Repeat, tail: string)
    requires RestOk(tail, false) && !IsRepeat(CharAt(tail, 0))
    ensures RestOk(PrintRepeat(r) + tail, true)
  {
    if r == Once {
      NothingToRepeat(tail);
      assert PrintRepeat(r) + tail == tail;
    } else {
      assert (PrintRepeat(r) + tail)[1..] == tail;
    }
  }

  lemma PlainChar(ch: char)
    requires AtomOk(false, ch)
    ensures ch !in "\\^$" && !IsInSet(ch, "()[]{}|") && !IsRepeat(ch) && !IsInSet(ch, "^$?*+")
  {
  }

  lemma EscapedChar(ch: char)
    ensures AtomOk(true, ch) <==> IsValidEscape(ch)
  {
  }

  lemma AtomIsOk(escaped: bool, ch: char, rest: string)
    requires AtomOk(escaped, ch) && RestOk(rest, true)
    ensures RestOk((if escaped then "\\" else "") + [ch] + rest, false)
  {
    hide AtomOk, IsInSet, IsRepeat, IsValidEscape;
    if escaped {
      EscapedChar(ch);
      assert "\\" + [ch] + rest == ['\\', ch] + rest;
      assert (['\\', ch] + rest)[2..] == rest;
    } else {
      PlainChar(ch);
      assert "" + [ch] + rest == [ch] + rest;
      assert ([ch] + rest)[1..] == rest;
    }
  }

  lemma ItemIsOk(item: Item, tail: string)
    requires AtomOk(item.escaped, item.ch)
    requires RestOk(tail, false) && !IsRepeat(CharAt(tail, 0))
    ensures RestOk(PrintItem(item) + tail, false)
  {
    hide RestOk, AtomOk, PrintRepeat;
    RepeatIsOk(item.repeat, tail);
    AtomIsOk(item.escaped, item.ch, PrintRepeat(item.repeat) + tail);
    assert PrintItem(item) + tail
        == (if item.escaped then "\\" else "") + [item.ch] + (PrintRepeat(item.repeat) + tail);
  }

  lemma {:induction false} PrintedIsOk(items: seq<Item>, dollar: bool)
    requires WellFormed(Expr(false, items, dollar))
    ensures RestOk(PrintItems(items, dollar), false)
  {
    if items != [] {
      assert WellFormed(Expr(false, items[1..], dollar));
      PrintedIsOk(items[1..], dollar);
      PrintedOnce(items[1..], dollar);
      assert AtomOk(items[0].escaped, items[0].ch);
      ItemIsOk(items[0], PrintItems(items[1..], dollar));
    }
  }

  /** The repetition that a text begins with, and the rest. */
  function FirstRepeat(s: string): (Repeat, string) {
    if s == [] || !IsRepeat(s[0]) then (Once, s)
    else (if s[0] == '?' then AtMostOnce else if s[0] == '*' then AnyNumber else AtLeastOnce, s[1..])
  }

  lemma FirstRepeatIsPrinted(s: string)
    requires RestOk(s, true)
    ensures PrintRepeat(FirstRepeat(s).0) + FirstRepeat(s).1 == s && RestOk(FirstRepeat(s).1, false)
  {
    if s == [] || !IsRepeat(s[0]) {
      NothingToRepeat(s);
    }
  }

  lemma AfterAtom(s: string)
    requires CString(s) && RestOk(s, false) && s != [] && s[0] != '$'
    ensures var escaped := s[0] == '\\';
      var atom := AtomStart(escaped, s);
      && atom != [] && AtomOk(escaped, atom[0]) && RestOk(atom[1..], true)
      && s == (if escaped then "\\" else "") + [atom[0]] + atom[1..]
  {
    if s[0] == '\\' {
      assert s[2..] == s[1..][1..];
    }
  }

  lemma JoinLeft(a: string, b: string, c: string)
    ensures a + (b + c) == a + b + c
  {
  }

  lemma TailIsCString(front: string, tail: string)
    requires CString(front + tail)
    ensures CString(tail)
  {
    assert forall i :: 0 <= i < |tail| ==> tail[i] == (front + tail)[i + |front|];
  }

  lemma FirstItemIsPrinted(s: string) returns (item: Item, rest: string)
    requires CString(s) && RestOk(s, false) && s != [] && s[0] != '$'
    ensures AtomOk(item.escaped, item.ch) && s == PrintItem(item) + rest
    ensures CString(rest) && RestOk(rest, false)
  {
    hide RestOk, IsRepeat, AtomOk, FirstRepeat;
    var escaped := s[0] == '\\';
    var atom := AtomStart(escaped, s);
    AfterAtom(s);
    FirstRepeatIsPrinted(atom[1..]);
    item, rest := Item(escaped, atom[0], FirstRepeat(atom[1..]).0), FirstRepeat(atom[1..]).1;
    JoinLeft((if escaped then "\\" else "") + [atom[0]], PrintRepeat(item.repeat), rest);
    TailIsCString(PrintItem(item), rest);
  }

  lemma {:induction false} OkIsPrinted(s: string) returns (items: seq<Item>, dollar: bool)
    requires CString(s) && RestOk(s, false)
    ensures WellFormed(Expr(false, items, dollar)) && PrintItems(items, dollar) == s
    decreases |s|
  {
    if s == [] {
      return [], false;
    } else if s[0] == '$' {
      return [], true;
    }
    var item, rest := FirstItemIsPrinted(s);
    hide RestOk, PrintItem, AtomOk, AtomStart;
    items, dollar := OkIsPrinted(rest);
    items := [item] + items;
  }

  lemma AllOkIsRegex(s: string)
    requires CString(s)
    ensures AllOk(s) <==> IsRegex(s)
  {
    if AllOk(s) {
      var caret := s != [] && s[0] == '^';
      var items, dollar := OkIsPrinted(if caret then s[1..] else s);
      assert WellFormed(Expr(caret, items, dollar)) && Print(Expr(caret, items, dollar)) == s;
    }
    if IsRegex(s) {
      var e: Expr :| WellFormed(e) && Print(e) == s;
      PrintedCaret(e);
      assert WellFormed(Expr(false, e.items, e.dollar));
      PrintedIsOk(e.items, e.dollar);
    }
  }

  /** A character that is not part of an escape is allowed where it stands. */
  predicate CharOk(s: string, i: nat, prevRepeatable: bool)
    requires i < |s|
  {
    && (s[i] == '^' ==> i == 0)
    && (s[i] == '$' ==> CharAt(s, i + 1) == '\0')
    && !IsInSet(s[i], "()[]{}|")
    && (IsRepeat(s[i]) ==> prevRepeatable)
  }

  /** What the loop of the validator still has to find out. */
  predicate StillOk(s: string, i: nat, prevRepeatable: bool)
    requires i <= |s|
  {
    if i == 0 then AllOk(s) else RestOk(s[i..], prevRepeatable)
  }

  lemma AfterChar(s: string, i: nat, prevRepeatable: bool)
    requires CString(s) && i < |s| && s[i] != '\\' && (i == 0 ==> !prevRepeatable)
    ensures StillOk(s, i, prevRepeatable)
       <==> CharOk(s, i, prevRepeatable) && StillOk(s, i + 1, !IsInSet(s[i], "^$?*+"))
  {
    assert s[i..][1..] == s[i + 1..];
  }

  lemma AfterEscape(s: string, i: nat, prevRepeatable: bool)
    requires CString(s) && i < |s| && s[i] == '\\' && (i == 0 ==> !prevRepeatable)
    ensures StillOk(s, i, prevRepeatable)
       <==> i + 1 < |s| && IsValidEscape(s[i + 1]) && StillOk(s, i + 2, true)
  {
    if i + 1 < |s| {
      assert s[i..][2..] == s[i + 2..] && s[i..][1] == s[i + 1];
    }
  }

  lemma NothingRead(s: string)
    ensures StillOk(s, 0, false) <==> AllOk(s)
  {
  }

  lemma AllRead(s: string, prevRepeatable: bool)
    ensures StillOk(s, |s|, prevRepeatable)
  {
  }

  /** One pass over the expression; it goes on after the first mistake, except after a final \. */
  method ValidateRegex(regex: Option<string>) returns (r: bool)
    requires regex.Some? ==> CString(regex.value)
    ensures r <==> regex.Some? && IsRegex(regex.value)
  {
    if regex.None? {
      return false;
    }
    hide StillOk, IsInSet, IsValidEscape, IsRepeat;
    var s := regex.value;
    AllOkIsRegex(s);
    var isValid, prevRepeatable := true, false;
    var i := 0;
    NothingRead(s);
    while CharAt(s, i) != '\0'
      invariant i <= |s| && (i == 0 ==> !prevRepeatable)
      invariant AllOk(s) <==> isValid && StillOk(s, i, prevRepeatable)
      decreases |s| - i
    {
      if CharAt(s, i) == '\\' {
        AfterEscape(s, i, prevRepeatable);
        i := i + 1;
        if CharAt(s, i) == '\0' {
          return false;
        }
        if !IsValidEscape(CharAt(s, i)) {
          isValid := false;
        }
        prevRepeatable := true;
      } else {
        AfterChar(s, i, prevRepeatable);
        var ch := CharAt(s, i);
        if ch == '^' && i > 0 {
          isValid := false;
        } else if ch == '$' && CharAt(s, i + 1) != '\0' {
          isValid := false;
        } else if IsInSet(ch, "()[]{}|") {
          isValid := false;
        } else if IsRepeat(ch) && !prevRepeatable {
          isValid := false;
        }
        prevRepeatable := !IsInSet(ch, "^$?*+");
      }
      i := i + 1;
    }
    AllRead(s, prevRepeatable);
    return isValid;
  }

  // ----- one text, one meaning -----

  /** No two lists of items are written the same way. */
  lemma {:induction false} ItemsAreUnique(a: seq<Item>, aDollar: bool, b: seq<Item>, bDollar: bool)
    requires WellFormed(Expr(false, a, aDollar)) && WellFormed(Expr(false, b, bDollar))
    requires PrintItems(a, aDollar) == PrintItems(b, bDollar)
    ensures a == b && aDollar == bDollar
  {
    hide PrintItem, PrintItems, AtomStart;
    PrintedHead(a, aDollar);
    PrintedHead(b, bDollar);
    if a != [] && b != [] {
      assert WellFormed(Expr(false, a[1..], aDollar)) && WellFormed(Expr(false, b[1..], bDollar));
      PrintedOnce(a[1..], aDollar);
      PrintedOnce(b[1..], bDollar);
      SameRepeat(a[0].repeat, b[0].repeat);
      ItemsAreUnique(a[1..], aDollar, b[1..], bDollar);
      assert a == [a[0]] + a[1..] && b == [b[0]] + b[1..];
    }
  }

  lemma SameRepeat(a: Repeat, b: Repeat)
    ensures PrintRepeat(a) == PrintRepeat(b) <==> a == b
    ensures a != Once ==> |PrintRepeat(a)| == 1 && IsRepeat(PrintRepeat(a)[0])
    ensures b != Once ==> |PrintRepeat(b)| == 1 && IsRepeat(PrintRepeat(b)[0])
  {
    if PrintRepeat(a) == PrintRepeat(b) && a != Once {
      assert PrintRepeat(a)[0] == PrintRepeat(b)[0];
    }
  }

  /** A text is at most one expression, so what it finds does not depend on how it is read. */
  lemma RegexIsUnique(a: Expr, b: Expr)
    requires WellFormed(a) && WellFormed(b) && Print(a) == Print(b)
    ensures a == b
  {
    PrintedCaret(a);
    PrintedCaret(b);
    assert WellFormed(Expr(false, a.items, a.dollar)) && WellFormed(Expr(false, b.items, b.dollar));
    ItemsAreUnique(a.items, a.dollar, b.items, b.dollar);
  }

  // ----- matching a whole string -----

  /** The expression ends in \$ and not in the $ that anchors it. */
  predicate EndsInEscapedDollar(e: Expr) {
    !e.dollar && e.items != [] && e.items[|e.items| - 1] == Item(true, '$', Once)
  }

  /** What RE makes of an expression for FullMatch. */
  function FullExpr(e: Expr): Expr {
    Expr(true, e.items, e.dollar || !EndsInEscapedDollar(e))
  }

  predicate EndsInDollar(s: string) {
    s != [] && s[|s| - 1] == '$'
  }

  function FullPattern(regex: string): string {
    (if CharAt(regex, 0) == '^' then "" else "^") + regex + if EndsInDollar(regex) then "" else "$"
  }

  lemma {:induction false} PrintedEnd(items: seq<Item>, dollar: bool)
    requires WellFormed(Expr(false, items, dollar))
    ensures PrintItems(items, true) == PrintItems(items, false) + "$"
    ensures EndsInDollar(PrintItems(items, dollar)) <==> dollar || EndsInEscapedDollar(Expr(false, items, dollar))
  {
    hide PrintItem, EndsInDollar;
    NoEnd();
    if items != [] {
      var tail := PrintItems(items[1..], dollar);
      assert WellFormed(Expr(false, items[1..], dollar));
      PrintedEnd(items[1..], dollar);
      JoinLeft(PrintItem(items[0]), PrintItems(items[1..], false), "$");
      if tail != [] {
        EndOfTail(PrintItem(items[0]), tail);
      }
      ItemEnd(items[0]);
      if |items| == 1 {
        assert items[1..] == [];
        assert tail == [] ==> PrintItem(items[0]) + tail == PrintItem(items[0]);
      } else {
        PrintedHead(items[1..], dollar);
        assert items[1..][|items[1..]| - 1] == items[|items| - 1];
      }
    }
  }

  lemma EndOfTail(front: string, tail: string)
    requires tail != []
    ensures EndsInDollar(front + tail) <==> EndsInDollar(tail)
  {
  }

  lemma NoEnd()
    ensures !EndsInDollar("") && EndsInDollar("$")
  {
  }

  lemma ItemEnd(item: Item)
    requires AtomOk(item.escaped, item.ch)
    ensures EndsInDollar(PrintItem(item)) <==> item == Item(true, '$', Once)
  {
    if item.repeat == Once {
      assert PrintItem(item) == (if item.escaped then "\\" else "") + [item.ch];
    }
  }

  lemma FullPatternIsPrinted(e: Expr)
    requires WellFormed(e)
    ensures WellFormed(FullExpr(e)) && Print(FullExpr(e)) == FullPattern(Print(e))
  {
    hide PrintItems;
    var text := PrintItems(e.items, e.dollar);
    PrintedCaret(e);
    assert WellFormed(Expr(false, e.items, e.dollar));
    PrintedEnd(e.items, e.dollar);
    assert "^" + text == (if e.caret then "" else "^") + Print(e);
    assert EndsInDollar(Print(e)) <==> EndsInDollar(text);
    JoinLeft("^", PrintItems(e.items, false), "$");
    if EndsInDollar(text) {
      assert PrintItems(e.items, FullExpr(e).dollar) == text;
      assert FullPattern(Print(e)) == "^" + text;
    } else {
      assert PrintItems(e.items, FullExpr(e).dollar) == text + "$";
      assert FullPattern(Print(e)) == "^" + text + "$";
    }
  }

  /** Matching a whole string is matching its whole length, or a prefix if the expression ends in \$. */
  lemma FullExprFinds(e: Expr, s: string)
    ensures Finds(FullExpr(e), s) <==>
      if EndsInEscapedDollar(e) then MatchesHead(e.items, false, s) else Matches(e.items, s)
  {
    hide Matches;
    FindsFrom(FullExpr(e), s);
    assert s[..|s|] == s;
  }

  // ----- where FullMatch is not a full match -----

  /** A character that an atom matches. */
  function SomeChar(escaped: bool, ch: char): char {
    if !escaped then ch
    else
      match ch
      case 'd' => '0'
      case 'D' => 'a'
      case 'f' => '\U{000C}'
      case 'n' => '\n'
      case 'r' => '\r'
      case 's' => ' '
      case 'S' => 'a'
      case 't' => '\t'
      case 'v' => '\U{000B}'
      case 'w' => 'a'
      case 'W' => ' '
      case _ => ch
  }

  lemma SomeCharMatches(escaped: bool, ch: char)
    requires AtomOk(escaped, ch)
    ensures Documented(escaped, ch, SomeChar(escaped, ch)) && SomeChar(escaped, ch) != '\0'
  {
  }

  /** A string in the language: every item once. */
  function SomeMatch(items: seq<Item>): string {
    if items == [] then "" else [SomeChar(items[0].escaped, items[0].ch)] + SomeMatch(items[1..])
  }

  lemma {:induction false} SomeMatchMatches(items: seq<Item>)
    requires WellFormed(Expr(false, items, false))
    ensures Matches(items, SomeMatch(items)) && CString(SomeMatch(items))
  {
    if items != [] {
      assert AtomOk(items[0].escaped, items[0].ch);
      SomeCharMatches(items[0].escaped, items[0].ch);
      assert WellFormed(Expr(false, items[1..], false));
      SomeMatchMatches(items[1..]);
      var s := SomeMatch(items);
      assert s[1..] == SomeMatch(items[1..]);
      assert ItemMatches(items[0], s[..1]);
    }
  }

  lemma {:induction false} MatchEndsInDollar(items: seq<Item>, s: string)
    requires items != [] && items[|items| - 1] == Item(true, '$', Once) && Matches(items, s)
    ensures EndsInDollar(s)
  {
    var j :| 0 <= j <= |s| && ItemMatches(items[0], s[..j]) && Matches(items[1..], s[j..]);
    if |items| == 1 {
      assert items[1..] == [] && s[j..] == [];
      assert s == s[..j] && s[..j][0] == s[0];
    } else {
      MatchEndsInDollar(items[1..], s[j..]);
    }
  }

  /** FullMatch is true of exactly the strings of the language, for every string, iff the expression
      does not end in \$. */
  lemma FullMatchIsExactIff(e: Expr)
    requires WellFormed(e)
    ensures (forall s: string :: CString(s) ==> (Finds(FullExpr(e), s) <==> Matches(e.items, s)))
       <==> !EndsInEscapedDollar(e)
  {
    forall s: string | CString(s) && !EndsInEscapedDollar(e) ensures Finds(FullExpr(e), s) <==> Matches(e.items, s) {
      FullExprFinds(e, s);
    }
    if EndsInEscapedDollar(e) {
      assert WellFormed(Expr(false, e.items, false));
      SomeMatchMatches(e.items);
      var w := SomeMatch(e.items);
      var s := w + "x";
      assert s[..|w|] == w;
      assert MatchesHead(e.items, false, s);
      FullExprFinds(e, s);
      assert s[|s| - 1] == 'x';
      if Matches(e.items, s) {
        MatchEndsInDollar(e.items, s);
        assert false;
      }
      assert CString(s) && Finds(FullExpr(e), s) && !Matches(e.items, s);
    }
  }

  // ----- RE -----

  class RE {
    var pattern: Option<string>
    var fullPattern: Option<string>
    var isValid: bool

    ghost predicate Valid()
      reads this
    {
      && (isValid <==> pattern.Some? && IsRegex(pattern.value))
      && (isValid ==> fullPattern == Some(FullPattern(pattern.value)))
    }

    constructor (regex: Option<string>)
      requires regex.Some? ==> CString(regex.value)
      ensures Valid() && pattern == regex
    {
      pattern, fullPattern := regex, None;
      var ok := ValidateRegex(regex);
      isValid := ok;
      if ok {
        var full := WriteFullPattern(regex.value);
        fullPattern := Some(full);
      }
    }

    static method FullMatch(str: Option<string>, re: RE, ghost e: Expr) returns (r: bool)
      requires re.Valid() && (re.isValid ==> WellFormed(e) && Print(e) == re.pattern.value)
      requires str.Some? ==> CString(str.value) && |str.value| < MAX_SIZE
      ensures r ==> re.isValid && str.Some?
      ensures re.isValid && str.Some? ==>
        (r <==> if EndsInEscapedDollar(e) then MatchesHead(e.items, false, str.value) else Matches(e.items, str.value))
    {
      if !re.isValid {
        return false;
      }
      FullPatternIsPrinted(e);
      r := MatchRegexAnywhere(FullExpr(e), re.fullPattern, str);
      if str.Some? {
        FullExprFinds(e, str.value);
      }
    }

    static method PartialMatch(str: Option<string>, re: RE, ghost e: Expr) returns (r: bool)
      requires re.Valid() && (re.isValid ==> WellFormed(e) && Print(e) == re.pattern.value)
      requires str.Some? ==> CString(str.value) && |str.value| < MAX_SIZE
      ensures r <==> re.isValid && str.Some? && Finds(e, str.value)
    {
      if !re.isValid {
        return false;
      }
      r := MatchRegexAnywhere(e, re.pattern, str);
    }
  }

  /** Writing the expression, with ^ and $ where they are missing, into a buffer of its own. */
  method WriteFullPattern(regex: string) returns (full: string)
    requires CString(regex)
    ensures full == FullPattern(regex) && CString(full)
  {
    var len := |regex|;
    var buffer := new char[len + 3];
    var n := 0;
    if CharAt(regex, 0) != '^' {
      buffer[n] := '^';
      n := n + 1;
    }
    ghost var front := buffer[..n];
    var i := 0;
    while i < len
      invariant i <= len && n == |front| + i
      invariant buffer[..n] == front + regex[..i]
    {
      buffer[n] := regex[i];
      n, i := n + 1, i + 1;
    }
    if len == 0 || regex[len - 1] != '$' {
      buffer[n] := '$';
      n := n + 1;
    }
    buffer[n] := '\0';
    full := buffer[..n];
  }
}
