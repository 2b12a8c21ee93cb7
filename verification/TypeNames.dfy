/** The names of inferred EIP-712 types (ethereum/eip712/types.go): prefixes, sanitising, duplicate indices. */
module TypeNames {
  import opened Numerals

  /** strings.Split for a one-character separator. */
  function Split(s: string, c: char): (parts: seq<string>)
    ensures |parts| > 0
    ensures forall i :: 0 <= i < |parts| ==> c !in parts[i]
  {
    if s == "" then [""]
    else
      var rest := Split(s[1..], c);
      if s[0] == c then [""] + rest else [[s[0]] + rest[0]] + rest[1..]
  }

  function Concat(parts: seq<string>): string {
    if parts == [] then "" else parts[0] + Concat(parts[1..])
  }

  predicate IsLower(c: char) { 'a' <= c <= 'z' }

  predicate IsWord(c: char) { IsLower(c) || 'A' <= c <= 'Z' || '0' <= c <= '9' }

  predicate StartsWord(s: string, i: nat)
    requires i < |s|
  {
    IsLower(s[i]) && (i == 0 || !IsWord(s[i - 1]))
  }

  /** Title case without lowering: a lower-case letter that starts a word goes upper-case. */
  function Title(s: string): (r: string)
    ensures |r| == |s|
    ensures forall i :: 0 <= i < |s| ==> r[i] == if StartsWord(s, i) then Upper(s[i]) else s[i]
  {
    seq(|s|, i requires 0 <= i < |s| => if StartsWord(s, i) then Upper(s[i]) else s[i])
  }

  function Upper(c: char): char
    requires IsLower(c)
  {
    c - ' '
  }

  /** By character codes: a to z lose 32 at the start and after anything but a letter or digit of ASCII. */
  lemma TitleIs(s: string, i: nat)
    requires i < |s|
    ensures var c := s[i] as int;
            var p := if i == 0 then 0 else s[i - 1] as int;
            var inWord := 97 <= p <= 122 || 65 <= p <= 90 || 48 <= p <= 57;
            Title(s)[i] as int == if 97 <= c <= 122 && !inWord then c - 32 else c
  {
    assert 'a' as int == 97 && 'z' as int == 122 && 'A' as int == 65 && 'Z' as int == 90;
    assert '0' as int == 48 && '9' as int == 57 && ' ' as int == 32;
  }

  function Titles(parts: seq<string>): (r: seq<string>)
    ensures |r| == |parts| && forall i :: 0 <= i < |r| ==> r[i] == Title(parts[i])
  {
    seq(|parts|, i requires 0 <= i < |parts| => Title(parts[i]))
  }

  function Camel(part: string): string { Concat(Titles(Split(part, '_'))) }

  function SanitizePart(part: string): string { if part == "_" then "Type" else Camel(part) }

  function SanitizeParts(parts: seq<string>): (r: seq<string>)
    ensures |r| == |parts| && forall i :: 0 <= i < |r| ==> r[i] == SanitizePart(parts[i])
  {
    seq(|parts|, i requires 0 <= i < |parts| => SanitizePart(parts[i]))
  }

  /** sanitizeTypedef: _.foo_bar.baz becomes TypeFooBarBaz. */
  function Sanitize(s: string): string { Concat(SanitizeParts(Split(s, '.'))) }

  /** prefixForSubField. */
  function SubPrefix(prefix: string, field: string): string { prefix + "." + field }

  /** typeDefWithIndex. */
  function WithIndex(typeDef: string, index: nat): string { typeDef + Decimal(index) }

  // --- Sanitised names stay as they are ---

  /** No separator is left and no word starts in lower case. */
  ghost predicate Clean(s: string) {
    '.' !in s && '_' !in s && forall i :: 0 <= i < |s| ==> !StartsWord(s, i)
  }

  lemma {:induction false} SplitOfPlain(s: string, c: char)
    requires c !in s
    ensures Split(s, c) == [s]
  {
    if s != "" {
      assert forall x :: x in s[1..] ==> x in s;
      SplitOfPlain(s[1..], c);
      assert [s[0]] + s[1..] == s;
    }
  }

  /** b is what follows the last c of s, or all of s when it has none. */
  ghost predicate IsLastPart(s: string, c: char, b: string) {
    && |b| <= |s| && s[|s| - |b|..] == b && c !in b
    && (|b| < |s| ==> s[|s| - |b| - 1] == c)
  }

  function AfterLast(s: string, c: char): (b: string)
    ensures IsLastPart(s, c, b)
  {
    if s == "" || s[|s| - 1] == c then "" else AfterLast(s[..|s| - 1], c) + [s[|s| - 1]]
  }

  lemma {:induction false} SplitHasTwo(s: string, c: char)
    requires c in s
    ensures |Split(s, c)| >= 2
  {
    if s[0] != c {
      SplitHasTwo(s[1..], c);
    }
  }

  /** The last part of a split is what follows the last separator. */
  lemma {:induction false} LastOfSplit(s: string, c: char, b: string)
    requires IsLastPart(s, c, b)
    ensures Split(s, c)[|Split(s, c)| - 1] == b
  {
    if |b| == |s| {
      assert s == b;
      SplitOfPlain(s, c);
    } else {
      var rest := s[1..];
      assert rest[|rest| - |b|..] == b;
      LastOfSplit(rest, c, b);
      if s[0] != c {
        assert c in rest by { assert rest[|rest| - |b| - 1] == c; }
        SplitHasTwo(rest, c);
      }
    }
  }

  lemma CleanConcat(a: string, b: string)
    requires Clean(a) && Clean(b)
    ensures Clean(a + b)
  {
    var s := a + b;
    forall i | 0 <= i < |s| ensures !StartsWord(s, i) {
      if |a| <= i { assert !StartsWord(b, i - |a|); } else { assert !StartsWord(a, i); }
    }
  }

  lemma {:induction false} ConcatIsClean(parts: seq<string>)
    requires forall i :: 0 <= i < |parts| ==> Clean(parts[i])
    ensures Clean(Concat(parts))
  {
    if parts != [] {
      ConcatIsClean(parts[1..]);
      CleanConcat(parts[0], Concat(parts[1..]));
    }
  }

  lemma TitleIsClean(s: string)
    requires '.' !in s && '_' !in s
    ensures Clean(Title(s))
  {
    var r := Title(s);
    forall i | 0 <= i < |r| ensures r[i] != '.' && r[i] != '_' && !StartsWord(r, i) {
      assert s[i] in s;
    }
  }

  lemma {:induction false} SplitWithout(s: string, c: char, d: char)
    requires d !in s
    ensures forall i :: 0 <= i < |Split(s, c)| ==> d !in Split(s, c)[i]
  {
    if s != "" {
      assert forall x :: x in s[1..] ==> x in s;
      SplitWithout(s[1..], c, d);
    }
  }

  lemma PartIsClean(part: string)
    requires '.' !in part
    ensures Clean(SanitizePart(part))
  {
    if part == "_" {
      assert SanitizePart(part) == "Type";
    } else {
      SplitWithout(part, '_', '.');
      var subparts := Split(part, '_');
      forall i | 0 <= i < |subparts| ensures Clean(Titles(subparts)[i]) { TitleIsClean(subparts[i]); }
      ConcatIsClean(Titles(subparts));
    }
  }

  lemma SanitizeIsClean(s: string)
    ensures Clean(Sanitize(s))
  {
    var parts := Split(s, '.');
    forall i | 0 <= i < |parts| ensures Clean(SanitizeParts(parts)[i]) { PartIsClean(parts[i]); }
    ConcatIsClean(SanitizeParts(parts));
  }

  lemma {:induction false} DecimalIsDigits(n: nat)
    ensures forall c :: c in Decimal(n) ==> '0' <= c <= '9'
  {
    if n >= 10 { DecimalIsDigits(n / 10); }
  }

  lemma CleanIsSanitised(s: string)
    requires Clean(s)
    ensures Sanitize(s) == s
  {
    SplitOfPlain(s, '.');
    SplitOfPlain(s, '_');
    assert Title(s) == s;
    assert Titles([s]) == [s];
    assert Concat([s]) == s + Concat([s][1..]) == s;
    assert SanitizeParts([s]) == [SanitizePart(s)] == [s];
  }

  /** Sanitising a key that was built from a sanitised prefix changes nothing. */
  lemma KeyIsSanitised(prefix: string, index: nat)
    ensures Sanitize(WithIndex(Sanitize(prefix), index)) == WithIndex(Sanitize(prefix), index)
  {
    SanitizeIsClean(prefix);
    DecimalIsDigits(index);
    assert forall i :: 0 <= i < |Decimal(index)| ==> Decimal(index)[i] in Decimal(index);
    CleanConcat(Sanitize(prefix), Decimal(index));
    CleanIsSanitised(WithIndex(Sanitize(prefix), index));
  }

  /** Every key ends in a digit. */
  ghost predicate EndsInDigit(key: string) { key != "" && '0' <= key[|key| - 1] <= '9' }

  lemma KeyEndsInDigit(typeDef: string, index: nat)
    ensures EndsInDigit(WithIndex(typeDef, index))
  {
    DecimalIsDigits(index);
    assert Decimal(index)[|Decimal(index)| - 1] in Decimal(index);
  }

  /** Splitting at the first separator. */
  lemma {:induction false} SplitPiece(a: string, c: char, b: string)
    requires c !in a
    ensures Split(a + [c] + b, c) == [a] + Split(b, c)
  {
    var s := a + [c] + b;
    if a == "" {
      assert s[1..] == b;
    } else {
      assert forall x :: x in a[1..] ==> x in a;
      SplitPiece(a[1..], c, b);
      assert s[1..] == a[1..] + [c] + b && a == [a[0]] + a[1..];
    }
  }

  lemma ConcatSplits(first: string, rest: seq<string>)
    ensures Concat([first] + rest) == first + Concat(rest) && Concat([first]) == first
  {
    assert ([first] + rest)[1..] == rest && [first][1..] == [];
  }

  lemma TitlesSplit(first: string, rest: seq<string>)
    ensures Titles([first] + rest) == [Title(first)] + Titles(rest) && Titles([first]) == [Title(first)]
  {
    hide Title;
  }

  lemma SanitizePartsSplit(first: string, rest: seq<string>)
    ensures SanitizeParts([first] + rest) == [SanitizePart(first)] + SanitizeParts(rest)
    ensures SanitizeParts([first]) == [SanitizePart(first)]
  {
    hide SanitizePart;
  }

  /** Camel case word by word: each stands title-cased before the rest, without the underscore. */
  lemma CamelIs(x: string, y: string)
    requires '_' !in x
    ensures Camel(x) == Title(x) && Camel(x + "_" + y) == Title(x) + Camel(y)
  {
    hide Split, Title, Titles, Concat;
    SplitOfPlain(x, '_');
    SplitPiece(x, '_', y);
    TitlesSplit(x, Split(y, '_'));
    ConcatSplits(Title(x), Titles(Split(y, '_')));
  }

  /** Sanitising goes part by part: the root prefix becomes "Type", any other part its camel case, the dots vanish. */
  lemma SanitizeIs(a: string, b: string)
    requires '.' !in a
    ensures Sanitize(a) == if a == "_" then "Type" else Camel(a)
    ensures Sanitize(a + "." + b) == Sanitize(a) + Sanitize(b)
  {
    hide Split, SanitizeParts, Concat, Camel;
    SplitOfPlain(a, '.');
    SplitPiece(a, '.', b);
    SanitizePartsSplit(a, Split(b, '.'));
    ConcatSplits(SanitizePart(a), SanitizeParts(Split(b, '.')));
  }
}
