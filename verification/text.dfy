/** String primitives the explorer relies on, with Python's meaning: `str.strip()`,
    `str.split(sep)`, `','.join`, lower-casing, substring search, `split(sub)[0]`,
    `rsplit(sub, 1)[0]`, `str(n)` for a count, and code-point string order. */
module Text {
  import opened Wrappers

  /** Python's `str.isspace()` on one character: the ASCII controls 9-13 and 28-31,
      the space, and the Unicode separators Python treats as white space. */
  predicate IsSpace(c: char) {
    var k := c as int;
    || (9 <= k <= 13)
    || (28 <= k <= 32)
    || k == 0x85
    || k == 0xA0
    || k == 0x1680
    || (0x2000 <= k <= 0x200A)
    || k == 0x2028
    || k == 0x2029
    || k == 0x202F
    || k == 0x205F
    || k == 0x3000
  }

  /** Every character is white space (the empty string is blank). */
  predicate IsBlank(s: string) {
    forall i :: 0 <= i < |s| ==> IsSpace(s[i])
  }

  /** No white space at either end. */
  predicate IsTrimmed(s: string) {
    |s| > 0 ==> !IsSpace(s[0]) && !IsSpace(s[|s| - 1])
  }

  // ---------------------------------------------------------------------------
  // strip

  function TrimLeft(s: string): (r: string)
    ensures |r| <= |s| && r == s[|s| - |r|..]
    ensures |r| > 0 ==> !IsSpace(r[0])
    decreases |s|
  {
    if |s| > 0 && IsSpace(s[0]) then TrimLeft(s[1..]) else s
  }

  /** What `TrimLeft` drops is white space. */
  lemma {:induction false} TrimLeftDropsSpace(s: string)
    ensures forall i :: 0 <= i < |s| - |TrimLeft(s)| ==> IsSpace(s[i])
    decreases |s|
  {
    if |s| > 0 && IsSpace(s[0]) {
      TrimLeftDropsSpace(s[1..]);
      assert forall i :: 1 <= i < |s| ==> s[i] == s[1..][i - 1];
    }
  }

  function TrimRight(s: string): (r: string)
    ensures |r| <= |s| && r == s[..|r|]
    ensures |r| > 0 ==> !IsSpace(r[|r| - 1])
    decreases |s|
  {
    if |s| > 0 && IsSpace(s[|s| - 1]) then TrimRight(s[..|s| - 1]) else s
  }

  /** What `TrimRight` drops is white space. */
  lemma {:induction false} TrimRightDropsSpace(s: string)
    ensures forall i :: |TrimRight(s)| <= i < |s| ==> IsSpace(s[i])
    decreases |s|
  {
    if |s| > 0 && IsSpace(s[|s| - 1]) {
      TrimRightDropsSpace(s[..|s| - 1]);
      assert forall i :: 0 <= i < |s| - 1 ==> s[i] == s[..|s| - 1][i];
    }
  }

  /** Python's `s.strip()`: white space removed from both ends. */
  function Strip(s: string): (r: string)
    ensures IsTrimmed(r)
    ensures |r| <= |s|
  {
    TrimRight(TrimLeft(s))
  }

  /** The stripped text is empty exactly when the text is blank, which is what app.py's
      truthiness test `if piece.strip()` asks. */
  lemma StripEmptyIffBlank(s: string)
    ensures Strip(s) == [] <==> IsBlank(s)
  {
    var l := TrimLeft(s);
    TrimLeftDropsSpace(s);
    TrimRightDropsSpace(l);
    if Strip(s) == [] {
      assert |l| == 0;
    } else {
      assert !IsSpace(l[0]) && l[0] == s[|s| - |l|];
    }
  }

  /** Stripping only removes characters: one absent from `s` is absent from the
      result. */
  lemma StripKeepsAbsent(c: char, s: string)
    requires c !in s
    ensures c !in Strip(s)
  {
    var l := TrimLeft(s);
    var r := TrimRight(l);
    assert forall i :: 0 <= i < |r| ==> r[i] == s[|s| - |l| + i];
  }

  /** Stripping a string that has no white space at its ends changes nothing. */
  lemma StripTrimmed(s: string)
    requires IsTrimmed(s)
    ensures Strip(s) == s
  {
  }

  /** Stripping is idempotent. */
  lemma StripIdempotent(s: string)
    ensures Strip(Strip(s)) == Strip(s)
  {
    StripTrimmed(Strip(s));
  }

  /** A leading white-space character does not survive stripping. */
  lemma StripLeadingSpace(c: char, s: string)
    requires IsSpace(c)
    ensures Strip([c] + s) == Strip(s)
  {
    assert ([c] + s)[1..] == s;
  }

  // ---------------------------------------------------------------------------
  // split / join

  /** Python's `s.split(sep)` for a one-character separator: at least one piece, and
      no piece contains the separator. */
  function Split(s: string, sep: char): (r: seq<string>)
    ensures |r| > 0
    ensures forall i :: 0 <= i < |r| ==> sep !in r[i]
    decreases |s|
  {
    if |s| == 0 then [""]
    else
      var rest := Split(s[1..], sep);
      if s[0] == sep then [""] + rest
      else [[s[0]] + rest[0]] + rest[1..]
  }

  /** `n` separators give `n + 1` pieces. */
  lemma {:induction false} SplitCount(s: string, sep: char)
    ensures |Split(s, sep)| == multiset(s)[sep] + 1
    decreases |s|
  {
    if |s| > 0 {
      SplitCount(s[1..], sep);
      assert s == [s[0]] + s[1..];
      assert multiset(s) == multiset{s[0]} + multiset(s[1..]);
    }
  }

  /** `sep.join(parts)`. */
  function Join(parts: seq<string>, sep: char): string
    requires |parts| > 0
    decreases |parts|
  {
    if |parts| == 1 then parts[0] else parts[0] + [sep] + Join(parts[1..], sep)
  }

  /** Prepending a character to the first part prepends it to the join. */
  lemma JoinPrependFirst(c: char, r: seq<string>, sep: char)
    requires |r| > 0
    ensures Join([[c] + r[0]] + r[1..], sep) == [c] + Join(r, sep)
  {
    var q := [[c] + r[0]] + r[1..];
    if |r| > 1 {
      assert q[1..] == r[1..];
    }
  }

  /** Joining the pieces of a split gives back the original text. */
  lemma {:induction false} JoinSplit(s: string, sep: char)
    ensures Join(Split(s, sep), sep) == s
    decreases |s|
  {
    if |s| > 0 {
      var rest := Split(s[1..], sep);
      JoinSplit(s[1..], sep);
      assert s == [s[0]] + s[1..];
      if s[0] == sep {
        assert Split(s, sep) == [""] + rest;
        assert ([""] + rest)[1..] == rest;
      } else {
        assert Split(s, sep) == [[s[0]] + rest[0]] + rest[1..];
        JoinPrependFirst(s[0], rest, sep);
      }
    }
  }

  /** One step of a split: a leading separator starts a new piece, any other
      character joins the first piece. */
  lemma SplitCons(c: char, t: string, sep: char)
    ensures var r := Split(t, sep);
      Split([c] + t, sep) == if c == sep then [""] + r else [[c] + r[0]] + r[1..]
  {
    assert ([c] + t)[1..] == t;
  }

  lemma {:induction false} SplitPrefix(a: string, t: string, sep: char)
    requires sep !in a
    ensures var r := Split(t, sep); Split(a + t, sep) == [a + r[0]] + r[1..]
    decreases |a|
  {
    var r := Split(t, sep);
    if |a| > 0 {
      var tail := a[1..];
      assert a + t == [a[0]] + (tail + t);
      SplitPrefix(tail, t, sep);
      SplitCons(a[0], tail + t, sep);
      var rest := Split(tail + t, sep);
      assert rest == [tail + r[0]] + r[1..];
      assert [a[0]] + (tail + r[0]) == a + r[0];
      assert rest[1..] == r[1..];
    } else {
      assert a + t == t;
      assert a + r[0] == r[0];
      assert r == [r[0]] + r[1..];
    }
  }

  /** Splitting a join of separator-free parts gives back exactly those parts. */
  lemma {:induction false} SplitJoin(parts: seq<string>, sep: char)
    requires |parts| > 0
    requires forall i :: 0 <= i < |parts| ==> sep !in parts[i]
    ensures Split(Join(parts, sep), sep) == parts
    decreases |parts|
  {
    if |parts| == 1 {
      SplitPrefix(parts[0], "", sep);
      assert parts[0] + "" == parts[0];
    } else {
      var j := Join(parts[1..], sep);
      SplitJoin(parts[1..], sep);
      assert ([sep] + j)[1..] == j;
      assert Split([sep] + j, sep) == [""] + parts[1..];
      SplitPrefix(parts[0], [sep] + j, sep);
      assert parts[0] + [sep] + j == parts[0] + ([sep] + j);
      assert parts[0] + "" == parts[0];
      assert parts == [parts[0]] + parts[1..];
    }
  }

  // ---------------------------------------------------------------------------
  // case folding and substring search

  predicate IsUpper(c: char) {
    'A' <= c <= 'Z'
  }

  function LowerChar(c: char): char {
    if IsUpper(c) then (c as int + 32) as char else c
  }

  /** ASCII lower-casing: no capital letter is left, each capital becomes the
      letter 32 code points above it, every other character is kept, and a string
      without capitals comes back unchanged. */
  function Lower(s: string): (r: string)
    ensures |r| == |s|
    ensures forall i :: 0 <= i < |r| ==> !IsUpper(r[i])
    ensures forall i :: 0 <= i < |s| && IsUpper(s[i]) ==> r[i] as int == s[i] as int + 32
    ensures forall i :: 0 <= i < |s| && !IsUpper(s[i]) ==> r[i] == s[i]
    ensures (forall i :: 0 <= i < |s| ==> !IsUpper(s[i])) ==> r == s
  {
    seq(|s|, i requires 0 <= i < |s| => LowerChar(s[i]))
  }

  lemma LowerIdempotent(s: string)
    ensures Lower(Lower(s)) == Lower(s)
  {
  }

  /** `sub` occurs in `s` starting at position `i`. */
  predicate OccursAt(s: string, sub: string, i: nat) {
    i + |sub| <= |s| && s[i..i + |sub|] == sub
  }

  /** Python's `sub in s`. */
  predicate Contains(s: string, sub: string) {
    exists i: nat :: i <= |s| && OccursAt(s, sub, i)
  }

  lemma OccursAtShift(s: string, sub: string)
    requires |s| > 0
    ensures forall i: nat :: 1 <= i ==> (OccursAt(s, sub, i) <==> OccursAt(s[1..], sub, i - 1))
  {
    forall i: nat | 1 <= i
      ensures OccursAt(s, sub, i) <==> OccursAt(s[1..], sub, i - 1)
    {
      if i + |sub| <= |s| {
        assert s[1..][i - 1..i - 1 + |sub|] == s[i..i + |sub|];
      }
    }
  }

  lemma OccursAtDropLastAt(s: string, sub: string, i: nat)
    requires |s| > 0
    ensures OccursAt(s[..|s| - 1], sub, i) <==> (OccursAt(s, sub, i) && i + |sub| < |s|)
  {
    if i + |sub| < |s| {
      assert s[..|s| - 1][i..i + |sub|] == s[i..i + |sub|];
    }
  }

  lemma OccursAtDropLast(s: string, sub: string)
    requires |s| > 0
    ensures forall i: nat :: OccursAt(s[..|s| - 1], sub, i) <==> (OccursAt(s, sub, i) && i + |sub| < |s|)
  {
    forall i: nat
      ensures OccursAt(s[..|s| - 1], sub, i) <==> (OccursAt(s, sub, i) && i + |sub| < |s|)
    {
      OccursAtDropLastAt(s, sub, i);
    }
  }

  /** Position of the first occurrence of `sub` in `s`, if any. */
  function FirstIndex(s: string, sub: string): (r: Option<nat>)
    ensures r.Some? ==> OccursAt(s, sub, r.value)
    ensures r.Some? ==> forall j: nat :: j < r.value ==> !OccursAt(s, sub, j)
    ensures r.None? ==> !Contains(s, sub)
    decreases |s|
  {
    if |s| < |sub| then None
    else if s[..|sub|] == sub then Some(0)
    else
      OccursAtShift(s, sub);
      match FirstIndex(s[1..], sub)
      case None => None
      case Some(k) => Some(k + 1)
  }

  /** Position of the last occurrence of `sub` in `s`, if any. */
  function LastIndex(s: string, sub: string): (r: Option<nat>)
    ensures r.Some? ==> OccursAt(s, sub, r.value)
    ensures r.Some? ==> forall j: nat :: r.value < j ==> !OccursAt(s, sub, j)
    ensures r.None? ==> !Contains(s, sub)
    decreases |s|
  {
    if |s| < |sub| then None
    else if s[|s| - |sub|..] == sub then Some(|s| - |sub|)
    else
      OccursAtDropLast(s, sub);
      LastIndex(s[..|s| - 1], sub)
  }

  /** Python's `s.split(sub)[0]`: the text before the first occurrence of `sub`,
      or all of `s` when `sub` does not occur. */
  function BeforeFirst(s: string, sub: string): (r: string)
    ensures r <= s
    ensures forall j: nat :: j < |r| ==> !OccursAt(s, sub, j)
    ensures Contains(s, sub) ==> OccursAt(s, sub, |r|)
    ensures !Contains(s, sub) ==> r == s
  {
    match FirstIndex(s, sub)
    case Some(k) => s[..k]
    case None => s
  }

  /** Python's `s.rsplit(sub, 1)[0]`: the text before the last occurrence of `sub`,
      or all of `s` when `sub` does not occur. */
  function BeforeLast(s: string, sub: string): (r: string)
    ensures r <= s
    ensures forall j: nat :: j > |r| ==> !OccursAt(s, sub, j)
    ensures Contains(s, sub) ==> OccursAt(s, sub, |r|)
    ensures !Contains(s, sub) ==> r == s
  {
    match LastIndex(s, sub)
    case Some(k) => s[..k]
    case None => s
  }

  /** If `sub` occurs at position `k` and nowhere before, `split(sub)[0]` is `s[..k]`. */
  lemma BeforeFirstAt(s: string, sub: string, k: nat)
    requires OccursAt(s, sub, k)
    requires forall j: nat :: j < k ==> !OccursAt(s, sub, j)
    ensures BeforeFirst(s, sub) == s[..k]
  {
    match FirstIndex(s, sub)
    case Some(f) =>
      assert !(f < k) && !(k < f);
    case None =>
  }

  /** If `sub` occurs at position `k` and nowhere after, `rsplit(sub, 1)[0]` is `s[..k]`. */
  lemma BeforeLastAt(s: string, sub: string, k: nat)
    requires OccursAt(s, sub, k)
    requires forall j: nat :: k < j ==> !OccursAt(s, sub, j)
    ensures BeforeLast(s, sub) == s[..k]
  {
    match LastIndex(s, sub)
    case Some(f) =>
      assert !(f < k) && !(k < f);
    case None =>
  }

  // ---------------------------------------------------------------------------
  // str(n)

  function DigitChar(d: nat): char
    requires d < 10
  {
    ('0' as int + d) as char
  }

  predicate IsDigit(c: char) {
    '0' <= c <= '9'
  }

  /** Python's `str(n)` for a non-negative count: decimal digits, no sign, and no
      leading zero except in `"0"` itself. */
  function NatToString(n: nat): (r: string)
    ensures |r| > 0
    ensures forall i :: 0 <= i < |r| ==> IsDigit(r[i])
    ensures n == 0 ==> r == "0"
    ensures n > 0 ==> r[0] != '0'
    ensures |r| > 1 ==> r[0] != '0'
    decreases n
  {
    if n < 10 then [DigitChar(n)] else NatToString(n / 10) + [DigitChar(n % 10)]
  }

  /** The number a string of decimal digits spells, most significant digit first. */
  function DigitsValue(s: string): nat
    requires forall i :: 0 <= i < |s| ==> IsDigit(s[i])
    decreases |s|
  {
    if |s| == 0 then 0
    else
      assert IsDigit(s[|s| - 1]);
      DigitsValue(s[..|s| - 1]) * 10 + (s[|s| - 1] as int - '0' as int)
  }

  /** `str(n)` spells `n` in decimal. */
  lemma {:induction false} NatToStringSpellsValue(n: nat)
    ensures DigitsValue(NatToString(n)) == n
    decreases n
  {
    var d := DigitChar(n % 10);
    if n < 10 {
      assert [DigitChar(n)][..0] == [];
    } else {
      var hi := NatToString(n / 10);
      NatToStringSpellsValue(n / 10);
      assert (hi + [d])[..|hi|] == hi;
    }
  }

  // ---------------------------------------------------------------------------
  // string order

  /** Python's `<` on `str`: lexicographic by code point, a proper prefix first. */
  predicate Less(a: string, b: string)
    decreases |a|
  {
    if |a| == 0 then |b| > 0
    else if |b| == 0 then false
    else a[0] < b[0] || (a[0] == b[0] && Less(a[1..], b[1..]))
  }

  lemma LessIrreflexive(a: string)
    ensures !Less(a, a)
  {
  }

  lemma {:induction false} LessTransitive(a: string, b: string, c: string)
    requires Less(a, b) && Less(b, c)
    ensures Less(a, c)
    decreases |a|
  {
    if |a| > 0 && |b| > 0 && |c| > 0 && a[0] == b[0] && b[0] == c[0] {
      LessTransitive(a[1..], b[1..], c[1..]);
    }
  }

  lemma {:induction false} LessTotal(a: string, b: string)
    requires a != b
    ensures Less(a, b) || Less(b, a)
    decreases |a|
  {
    if |a| > 0 && |b| > 0 && a[0] == b[0] {
      assert a == [a[0]] + a[1..] && b == [b[0]] + b[1..];
      LessTotal(a[1..], b[1..]);
    }
  }
}
