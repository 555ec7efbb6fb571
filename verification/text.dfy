/**
 The string helpers of `JavaScriptItemHelper` (Common.ts): splitting text at
 line-break opportunities and at newlines, numbering duplicate names,
 `{n}` placeholder substitution, and array membership.
 */
module Text {
  import opened Wrappers
  import opened Decimal

  // ---------------------------------------------------------------------
  // Splitting
  // ---------------------------------------------------------------------

  /**
   The characters of the character class in `lineBreakOpportunity`: space,
   tab, the Unicode hyphens and dashes it lists, slash, backslash, comma,
   ampersand, plus and hyphen-minus.
   */
  predicate IsBreakChar(c: char) {
    c in {' ', '\t', '᠆', '‒', '–', '—', '−', '〜', '〰',
          '­', '֊', '‐', '/', '\\', ',', '&', '+', '-'}
  }

  predicate IsNewline(c: char) {
    c == '\n'
  }

  /** No character of `s` is a break. */
  predicate NoBreak(s: string, isBreak: char -> bool) {
    forall i | 0 <= i < |s| :: !isBreak(s[i])
  }

  /** `text.search(re)` for a one-character class: the first match, or -1. */
  function Search(text: string, isBreak: char -> bool): (p: int)
    ensures -1 <= p < |text|
    ensures p == -1 <==> NoBreak(text, isBreak)
    ensures p >= 0 ==> isBreak(text[p]) && NoBreak(text[..p], isBreak)
  {
    if text == [] then -1
    else if isBreak(text[0]) then 0
    else
      var p := Search(text[1..], isBreak);
      if p == -1 then -1 else p + 1
  }

  /**
   `lineBreakOpportunity` and `nextLineBreak`: the length of the first piece
   to split off: the whole text when it has no break, 1 when it starts with
   a break, and otherwise the run before the first break.
   */
  function BreakOpportunity(text: string, isBreak: char -> bool): (p: nat)
    ensures p <= |text|
    ensures |text| > 0 ==> p >= 1
    ensures NoBreak(text, isBreak) ==> p == |text|
    ensures |text| > 0 && isBreak(text[0]) ==> p == 1
    ensures |text| > 0 && !isBreak(text[0]) ==> NoBreak(text[..p], isBreak) && (p == |text| || isBreak(text[p]))
  {
    var p := Search(text, isBreak);
    if p == -1 then |text| else if p == 0 then 1 else p
  }

  /** `lineBreakOpportunity(text)`: where the first piece ends, breaking at the characters of `IsBreakChar`. */
  function LineBreakOpportunity(text: string): (p: nat)
    ensures p <= |text|
    ensures |text| > 0 ==> p >= 1
    ensures NoBreak(text, IsBreakChar) ==> p == |text|
    ensures |text| > 0 && IsBreakChar(text[0]) ==> p == 1
    ensures |text| > 0 && !IsBreakChar(text[0]) ==> NoBreak(text[..p], IsBreakChar) && (p == |text| || IsBreakChar(text[p]))
  {
    BreakOpportunity(text, IsBreakChar)
  }

  /** `nextLineBreak(text)`: where the first line ends, breaking at newlines. */
  function NextLineBreak(text: string): (p: nat)
    ensures p <= |text|
    ensures |text| > 0 ==> p >= 1
    ensures NoBreak(text, IsNewline) ==> p == |text|
    ensures |text| > 0 && IsNewline(text[0]) ==> p == 1
    ensures |text| > 0 && !IsNewline(text[0]) ==> NoBreak(text[..p], IsNewline) && (p == |text| || IsNewline(text[p]))
  {
    BreakOpportunity(text, IsNewline)
  }

  /** Joins pieces back into one string. */
  function Concat(pieces: seq<string>): string {
    if pieces == [] then [] else pieces[0] + Concat(pieces[1..])
  }

  /** A piece is one break character, or a run of characters none of which is one. */
  predicate WellFormedPiece(piece: string, isBreak: char -> bool) {
    |piece| > 0 && ((|piece| == 1 && isBreak(piece[0])) || NoBreak(piece, isBreak))
  }

  /**
   The loop of `splitByLineBreakOpportunity` and `splitIntoLines`: split off
   the first piece while text remains.
   */
  function Split(text: string, isBreak: char -> bool): (pieces: seq<string>)
    decreases |text|
  {
    if |text| == 0 then []
    else
      var p := BreakOpportunity(text, isBreak);
      [text[..p]] + Split(text[p..], isBreak)
  }

  /**
   `splitByLineBreakOpportunity(text)`: the pieces join back to the text,
   and each is one break character or a run without one.
   */
  function SplitByLineBreakOpportunity(text: string): (pieces: seq<string>)
    ensures Concat(pieces) == text
    ensures forall i | 0 <= i < |pieces| :: WellFormedPiece(pieces[i], IsBreakChar)
  {
    SplitProperties(text, IsBreakChar);
    Split(text, IsBreakChar)
  }

  /**
   `splitIntoLines(text)`: the pieces join back to the text, and each is a
   single newline or a run of text without one.
   */
  function SplitIntoLines(text: string): (pieces: seq<string>)
    ensures Concat(pieces) == text
    ensures forall i | 0 <= i < |pieces| :: WellFormedPiece(pieces[i], IsNewline)
  {
    SplitProperties(text, IsNewline);
    Split(text, IsNewline)
  }

  /**
   The pieces join back to the text; each is one break character or a
   break-free run; and a break-free run is never followed by another one
   (it was cut only where a break begins).
   */
  lemma {:induction false} SplitProperties(text: string, isBreak: char -> bool)
    ensures var pieces := Split(text, isBreak);
      && Concat(pieces) == text
      && (forall i | 0 <= i < |pieces| :: WellFormedPiece(pieces[i], isBreak))
      && (forall i | 0 <= i < |pieces| - 1 :: isBreak(pieces[i][0]) || isBreak(pieces[i + 1][0]))
  {
    SplitConcat(text, isBreak);
    SplitWellFormed(text, isBreak);
    SplitAlternates(text, isBreak);
  }

  lemma {:induction false} SplitConcat(text: string, isBreak: char -> bool)
    ensures Concat(Split(text, isBreak)) == text
    decreases |text|
  {
    if |text| > 0 {
      var p := BreakOpportunity(text, isBreak);
      SplitConcat(text[p..], isBreak);
      SplitConcatStep(text, p, isBreak);
    }
  }

  /** The first piece followed by the rest joins back to the text. */
  lemma SplitConcatStep(text: string, p: nat, isBreak: char -> bool)
    requires |text| > 0 && p == BreakOpportunity(text, isBreak)
    requires Concat(Split(text[p..], isBreak)) == text[p..]
    ensures Concat(Split(text, isBreak)) == text
  {
    SplitUnfold(text, isBreak);
    ConcatCons(text[..p], Split(text[p..], isBreak));
    TakeDrop(text, p);
  }

  /** One step of `Split`: the first piece, then the split of what follows it. */
  lemma SplitUnfold(text: string, isBreak: char -> bool)
    requires |text| > 0
    ensures var p := BreakOpportunity(text, isBreak);
      Split(text, isBreak) == [text[..p]] + Split(text[p..], isBreak)
  {
  }

  lemma TakeDrop<T>(s: seq<T>, p: nat)
    requires p <= |s|
    ensures s[..p] + s[p..] == s
  {
  }

  lemma ConcatCons(piece: string, rest: seq<string>)
    ensures Concat([piece] + rest) == piece + Concat(rest)
  {
    assert ([piece] + rest)[1..] == rest;
  }

  lemma {:induction false} SplitWellFormed(text: string, isBreak: char -> bool)
    ensures var pieces := Split(text, isBreak);
      forall i | 0 <= i < |pieces| :: WellFormedPiece(pieces[i], isBreak)
    decreases |text|
  {
    if |text| > 0 {
      var p := BreakOpportunity(text, isBreak);
      SplitWellFormed(text[p..], isBreak);
      var pieces := Split(text, isBreak);
      assert pieces == [text[..p]] + Split(text[p..], isBreak);
    }
  }

  lemma {:induction false} SplitAlternates(text: string, isBreak: char -> bool)
    ensures var pieces := Split(text, isBreak); forall i | 0 <= i < |pieces| :: |pieces[i]| > 0
    ensures var pieces := Split(text, isBreak);
      forall i | 0 <= i < |pieces| - 1 :: isBreak(pieces[i][0]) || isBreak(pieces[i + 1][0])
    decreases |text|
  {
    if |text| > 0 {
      var p := BreakOpportunity(text, isBreak);
      var rest := Split(text[p..], isBreak);
      SplitAlternates(text[p..], isBreak);
      SplitWellFormed(text, isBreak);
      var pieces := Split(text, isBreak);
      assert pieces == [text[..p]] + rest;
      SplitHead(text[p..], isBreak);
    }
  }

  /** The first piece starts with the text's first character. */
  lemma SplitHead(text: string, isBreak: char -> bool)
    ensures var pieces := Split(text, isBreak);
      pieces != [] ==> |pieces[0]| > 0 && pieces[0][0] == text[0]
  {
    if text != [] {
      var p := BreakOpportunity(text, isBreak);
      assert Split(text, isBreak)[0] == text[..p];
    }
  }

  // ---------------------------------------------------------------------
  // addNumericSuffix
  // ---------------------------------------------------------------------

  /** The number of digits `s` ends with. */
  function TrailingDigits(s: string): (n: nat)
    ensures n <= |s| && AllDigits(s[|s| - n..])
    ensures n < |s| ==> !IsDigit(s[|s| - n - 1])
  {
    if s == [] || !IsDigit(s[|s| - 1]) then 0 else TrailingDigits(s[..|s| - 1]) + 1
  }

  /**
   The match of `/ \[(\d+)\]$/` in a name: the text before it and the digits,
   when the name ends with a space, `[`, digits and `]`.
   */
  function NumericSuffix(name: string): Option<(string, string)> {
    if |name| == 0 || name[|name| - 1] != ']' then None
    else
      var body := name[..|name| - 1];
      var n := TrailingDigits(body);
      if n == 0 || n + 2 > |body| || body[|body| - n - 1] != '[' || body[|body| - n - 2] != ' ' then None
      else Some((body[..|body| - n - 2], body[|body| - n..]))
  }

  /** The name with a bracketed number appended. */
  function WithSuffix(prefix: string, digits: string): string {
    prefix + " [" + digits + "]"
  }

  /** `addNumericSuffix(name)`: bump an existing ` [n]` suffix, or append ` [2]`. */
  function AddNumericSuffix(name: string): string {
    match NumericSuffix(name)
    case Some((prefix, digits)) => WithSuffix(prefix, NatToString(ParseDigits(digits) + 1))
    case None => WithSuffix(name, "2")
  }

  /** A suffix written by `WithSuffix` is the one `NumericSuffix` finds. */
  lemma NumericSuffixOfWithSuffix(prefix: string, digits: string)
    requires |digits| > 0 && AllDigits(digits)
    ensures NumericSuffix(WithSuffix(prefix, digits)) == Some((prefix, digits))
  {
    var name := WithSuffix(prefix, digits);
    var body := name[..|name| - 1];
    var n := |digits|;
    assert body == (prefix + " [") + digits;
    TrailingDigitsOfDigits(prefix + " [", digits);
    assert body[|body| - n - 1] == '[' && body[|body| - n - 2] == ' ';
    assert body[..|body| - n - 2] == prefix;
    assert body[|body| - n..] == digits;
  }

  /** The trailing digit run of `s + digits` is `digits` when `s` ends with a non-digit. */
  lemma {:induction false} TrailingDigitsOfDigits(s: string, digits: string)
    requires |s| > 0 && !IsDigit(s[|s| - 1]) && AllDigits(digits)
    ensures TrailingDigits(s + digits) == |digits|
    decreases |digits|
  {
    if digits != [] {
      var t := s + digits;
      assert t[..|t| - 1] == s + digits[..|digits| - 1];
      TrailingDigitsOfDigits(s, digits[..|digits| - 1]);
    }
  }

  /** The digits of a numeric suffix are a non-empty digit string. */
  lemma NumericSuffixDigits(name: string)
    requires NumericSuffix(name).Some?
    ensures |NumericSuffix(name).value.1| > 0 && AllDigits(NumericSuffix(name).value.1)
  {
  }

  /**
   Adding a suffix always leaves a name with a numeric suffix over the same
   base name: one more than the old number when there was one, else 2.
   */
  lemma AddNumericSuffixIncrements(name: string)
    ensures var r := AddNumericSuffix(name);
      && NumericSuffix(r).Some?
      && AllDigits(NumericSuffix(r).value.1)
      && (NumericSuffix(name).Some? ==>
            && NumericSuffix(r).value.0 == NumericSuffix(name).value.0
            && AllDigits(NumericSuffix(name).value.1)
            && ParseDigits(NumericSuffix(r).value.1) == ParseDigits(NumericSuffix(name).value.1) + 1)
      && (NumericSuffix(name).None? ==>
            NumericSuffix(r).value.0 == name && ParseDigits(NumericSuffix(r).value.1) == 2)
  {
    if NumericSuffix(name).Some? {
      AddNumericSuffixBumps(name);
    } else {
      AddNumericSuffixAppends(name);
    }
  }

  lemma AddNumericSuffixBumps(name: string)
    requires NumericSuffix(name).Some?
    ensures AllDigits(NumericSuffix(name).value.1)
    ensures var r := AddNumericSuffix(name);
      && NumericSuffix(r).Some?
      && AllDigits(NumericSuffix(r).value.1)
      && NumericSuffix(r).value.0 == NumericSuffix(name).value.0
      && ParseDigits(NumericSuffix(r).value.1) == ParseDigits(NumericSuffix(name).value.1) + 1
  {
    var (prefix, digits) := NumericSuffix(name).value;
    NumericSuffixDigits(name);
    var k := ParseDigits(digits) + 1;
    var written := NatToString(k);
    assert AddNumericSuffix(name) == WithSuffix(prefix, written);
    NumericSuffixOfWithSuffix(prefix, written);
    ParseNatToString(k);
  }

  lemma AddNumericSuffixAppends(name: string)
    requires NumericSuffix(name).None?
    ensures var r := AddNumericSuffix(name);
      && NumericSuffix(r).Some?
      && AllDigits(NumericSuffix(r).value.1)
      && NumericSuffix(r).value.0 == name && ParseDigits(NumericSuffix(r).value.1) == 2
  {
    assert AddNumericSuffix(name) == WithSuffix(name, "2");
    NumericSuffixOfWithSuffix(name, "2");
    assert ParseDigits("2") == 2;
  }

  // ---------------------------------------------------------------------
  // StringUtils.format
  // ---------------------------------------------------------------------

  /** The number of digits `s` starts with. */
  function LeadingDigits(s: string): (n: nat)
    ensures n <= |s| && AllDigits(s[..n])
    ensures n < |s| ==> !IsDigit(s[n])
  {
    if s == [] || !IsDigit(s[0]) then 0 else LeadingDigits(s[1..]) + 1
  }

  /**
   The number of digits of a `{digits}` placeholder at the start of `text`,
   as `/{(\d+)}/` matches it there.
   */
  function PlaceholderAt(text: string): (r: Option<nat>)
    ensures r.Some? ==> var n := r.value;
      && 0 < n && n + 2 <= |text| && text[0] == '{' && AllDigits(text[1..n + 1]) && text[n + 1] == '}'
  {
    if |text| == 0 || text[0] != '{' then None
    else
      var n := LeadingDigits(text[1..]);
      assert text[1..][..n] == text[1..n + 1];
      if n > 0 && n + 1 < |text| && text[n + 1] == '}' then Some(n) else None
  }

  /**
   `args[number]` where `number` is the matched digit string: an array has a
   property only under the canonical spelling of an in-range index, and an
   undefined argument leaves the placeholder as it was.
   */
  function Argument(digits: string, args: seq<Option<string>>): Option<string>
    requires AllDigits(digits)
  {
    if Canonical(digits) && ParseDigits(digits) < |args| then args[ParseDigits(digits)] else None
  }

  /**
   `StringUtils.format(text, ...args)`: every `{n}` whose argument is defined
   is replaced by it, scanning left to right; replacement text is not
   scanned again. Arguments are given already converted to strings, `None`
   standing for `undefined`.
   */
  function Format(text: string, args: seq<Option<string>>): string
    decreases |text|
  {
    if text == [] then []
    else match PlaceholderAt(text)
      case Some(n) =>
        var whole := text[..n + 2];
        Argument(text[1..n + 1], args).GetOr(whole) + Format(text[n + 2..], args)
      case None => [text[0]] + Format(text[1..], args)
  }

  /** With no arguments nothing is substituted. */
  lemma {:induction false} FormatNoArgs(text: string)
    ensures Format(text, []) == text
    decreases |text|
  {
    if text != [] {
      match PlaceholderAt(text)
      case Some(n) =>
        FormatNoArgs(text[n + 2..]);
        assert text == text[..n + 2] + text[n + 2..];
      case None =>
        FormatNoArgs(text[1..]);
        assert text == [text[0]] + text[1..];
    }
  }

  /** Text without an opening brace is returned as it is. */
  lemma {:induction false} FormatNoBraces(text: string, args: seq<Option<string>>)
    requires '{' !in text
    ensures Format(text, args) == text
    decreases |text|
  {
    if text != [] {
      assert PlaceholderAt(text) == None;
      FormatNoBraces(text[1..], args);
      assert text == [text[0]] + text[1..];
    }
  }

  /** The placeholder `{i}` as `format` expects it. */
  function Placeholder(i: nat): string {
    "{" + NatToString(i) + "}"
  }

  /** `{i}` is replaced by the i-th argument when that is defined. */
  lemma FormatPlaceholder(before: string, i: nat, after: string, args: seq<Option<string>>)
    requires '{' !in before
    requires i < |args| && args[i].Some?
    ensures Format(before + Placeholder(i) + after, args) == before + args[i].value + Format(after, args)
  {
    FormatAppendPlain(before, Placeholder(i) + after, args);
    FormatLeadingPlaceholder(i, after, args);
    AppendAssoc(before, Placeholder(i), after);
    AppendAssoc(before, args[i].value, Format(after, args));
  }

  lemma AppendAssoc<T>(a: seq<T>, b: seq<T>, c: seq<T>)
    ensures a + b + c == a + (b + c)
  {
  }

  /** Text without an opening brace passes through unchanged, whatever follows it. */
  lemma {:induction false} FormatAppendPlain(before: string, rest: string, args: seq<Option<string>>)
    requires '{' !in before
    ensures Format(before + rest, args) == before + Format(rest, args)
    decreases |before|
  {
    if before != [] {
      var text := before + rest;
      assert text[1..] == before[1..] + rest;
      FormatPlainHead(text, args);
      FormatAppendPlain(before[1..], rest, args);
      assert [before[0]] + (before[1..] + Format(rest, args)) == before + Format(rest, args);
    } else {
      assert before + rest == rest;
    }
  }

  /** A text that starts with `{i}` starts its result with the i-th argument. */
  lemma FormatLeadingPlaceholder(i: nat, after: string, args: seq<Option<string>>)
    requires i < |args| && args[i].Some?
    ensures Format(Placeholder(i) + after, args) == args[i].value + Format(after, args)
  {
    var digits := NatToString(i);
    PlaceholderParts(digits, after);
    assert Placeholder(i) + after == "{" + digits + "}" + after;
    ParseNatToString(i);
    FormatAtPlaceholder("{" + digits + "}" + after, |digits|, args);
  }

  /** A brace, digits, a closing brace: a placeholder of that many digits, followed by the rest. */
  lemma PlaceholderParts(digits: string, after: string)
    requires |digits| > 0 && AllDigits(digits)
    ensures var text := "{" + digits + "}" + after;
      && PlaceholderAt(text) == Some(|digits|)
      && text[1..|digits| + 1] == digits
      && text[..|digits| + 2] == "{" + digits + "}"
      && text[|digits| + 2..] == after
  {
    var text := "{" + digits + "}" + after;
    assert text[1..] == digits + ("}" + after);
    LeadingDigitsOfDigits(digits, "}" + after);
  }

  /** One step of `format` at a placeholder. */
  lemma FormatAtPlaceholder(text: string, n: nat, args: seq<Option<string>>)
    requires PlaceholderAt(text) == Some(n)
    ensures Format(text, args) == Argument(text[1..n + 1], args).GetOr(text[..n + 2]) + Format(text[n + 2..], args)
  {
  }

  /** A text that does not start with a brace keeps its first character. */
  lemma FormatPlainHead(text: string, args: seq<Option<string>>)
    requires text != [] && text[0] != '{'
    ensures Format(text, args) == [text[0]] + Format(text[1..], args)
  {
    assert PlaceholderAt(text) == None;
  }

  /** The leading digit run of `digits + s` is `digits` when `s` starts with a non-digit. */
  lemma {:induction false} LeadingDigitsOfDigits(digits: string, s: string)
    requires AllDigits(digits) && |s| > 0 && !IsDigit(s[0])
    ensures LeadingDigits(digits + s) == |digits|
    decreases |digits|
  {
    if digits != [] {
      assert (digits + s)[1..] == digits[1..] + s;
      LeadingDigitsOfDigits(digits[1..], s);
    }
  }

  /** A zero-padded index names no array element, so the placeholder stays. */
  lemma FormatKeepsPaddedIndex()
    ensures Format("{01}", [Some("a"), Some("b")]) == "{01}"
  {
    var text := "{01}";
    assert text[1..] == "01}" && "01}"[1..] == "1}" && "1}"[1..] == "}";
    assert LeadingDigits("}") == 0;
    assert LeadingDigits(text[1..]) == 2;
    assert PlaceholderAt(text) == Some(2);
    assert !Canonical(text[1..3]);
  }

  // ---------------------------------------------------------------------
  // contains, isSubset
  // ---------------------------------------------------------------------

  /** `array.indexOf(value)`: the first position holding the value, or -1. */
  function IndexOf<T(==)>(s: seq<T>, x: T): (r: int)
    ensures -1 <= r < |s|
    ensures r == -1 <==> x !in s
    ensures r >= 0 ==> s[r] == x && x !in s[..r]
  {
    if s == [] then -1
    else if s[0] == x then 0
    else
      var r := IndexOf(s[1..], x);
      if r == -1 then -1
      else
        assert s[..r + 1] == [s[0]] + s[1..][..r];
        r + 1
  }

  /** `contains(array, value)`. */
  function Contains<T(==)>(s: seq<T>, x: T): (r: bool)
    ensures r <==> x in s
  {
    IndexOf(s, x) != -1
  }

  /**
   `isSubset(set1, set2)`: true when every element of `set1` occurs in `set2`
   (the doc comment states the opposite inclusion; the code and the name
   agree on this one).
   */
  method IsSubset<T(==)>(set1: seq<T>, set2: seq<T>) returns (r: bool)
    ensures r <==> Elements(set1) <= Elements(set2)
  {
    var i := 0;
    while i < |set1|
      invariant 0 <= i <= |set1|
      invariant forall j | 0 <= j < i :: set1[j] in set2
    {
      if IndexOf(set2, set1[i]) == -1 {
        assert set1[i] in Elements(set1);
        return false;
      }
      i := i + 1;
    }
    return true;
  }

  function Elements<T>(s: seq<T>): set<T> {
    set x | x in s
  }
}
