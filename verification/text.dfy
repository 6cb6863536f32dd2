/** The string primitives the parser is built from, with Rust's `str` semantics:
    `find` of a char, `split` on a single-char pattern, `trim`, and `usize::from_str`. */
module Text {
  import opened Wrappers

  /** Index of the first occurrence of `c` in `s` (`str::find` with a char pattern). */
  function Find(s: string, c: char): (r: Option<nat>)
    ensures r.Some? ==> r.value < |s| && s[r.value] == c && c !in s[..r.value]
    ensures r.None? <==> c !in s
  {
    if |s| == 0 then None
    else if s[0] == c then Some(0)
    else match Find(s[1..], c)
      case None => None
      case Some(i) =>
        assert s[..i + 1] == [s[0]] + s[1..][..i];
        Some(i + 1)
  }

  /** The first occurrence of `sep` in `a + [sep] + b` is right after `a`, when `a` has none. */
  lemma {:induction false} FindAfter(a: string, sep: char, b: string)
    requires sep !in a
    ensures Find(a + [sep] + b, sep) == Some(|a|)
  {
    var s := a + [sep] + b;
    if |a| > 0 {
      assert s[0] == a[0];
      assert s[1..] == a[1..] + [sep] + b;
      FindAfter(a[1..], sep, b);
    }
  }

  /** How many times `c` occurs in `s`. */
  function Occurrences(s: string, c: char): nat
  {
    if |s| == 0 then 0 else (if s[0] == c then 1 else 0) + Occurrences(s[1..], c)
  }

  lemma {:induction false} OccurrencesAppend(a: string, b: string, c: char)
    ensures Occurrences(a + b, c) == Occurrences(a, c) + Occurrences(b, c)
  {
    if |a| == 0 {
      assert a + b == b;
    } else {
      assert (a + b)[1..] == a[1..] + b;
      OccurrencesAppend(a[1..], b, c);
    }
  }

  lemma {:induction false} OccurrencesAbsent(s: string, c: char)
    requires c !in s
    ensures Occurrences(s, c) == 0
  {
    if |s| > 0 {
      OccurrencesAbsent(s[1..], c);
    }
  }

  /** `str::split` on a one-character pattern: the pieces between consecutive separators, in order.
      Like Rust's iterator it never yields zero pieces: the empty string splits into `[""]`. */
  function Split(s: string, sep: char): (r: seq<string>)
    ensures |r| == Occurrences(s, sep) + 1
    ensures forall i :: 0 <= i < |r| ==> sep !in r[i]
    decreases |s|
  {
    match Find(s, sep)
    case None =>
      OccurrencesAbsent(s, sep);
      [s]
    case Some(i) =>
      assert s == s[..i] + [sep] + s[i + 1..];
      OccurrencesAppend(s[..i] + [sep], s[i + 1..], sep);
      OccurrencesAppend(s[..i], [sep], sep);
      OccurrencesAbsent(s[..i], sep);
      [s[..i]] + Split(s[i + 1..], sep)
  }

  /** The pieces glued back together with `sep` between consecutive ones (`[&str]::join`). */
  function JoinWith(parts: seq<string>, sep: char): string
  {
    if |parts| == 0 then ""
    else if |parts| == 1 then parts[0]
    else parts[0] + [sep] + JoinWith(parts[1..], sep)
  }

  /** Joining the pieces of a split gives back the input. */
  lemma {:induction false} JoinSplit(s: string, sep: char)
    ensures JoinWith(Split(s, sep), sep) == s
    decreases |s|
  {
    match Find(s, sep)
    case None =>
    case Some(i) =>
      JoinSplit(s[i + 1..], sep);
      assert s == s[..i] + [sep] + s[i + 1..];
  }

  /** Splitting pieces that hold no separator, once joined, gives back the pieces. */
  lemma {:induction false} SplitJoin(parts: seq<string>, sep: char)
    requires |parts| > 0
    requires forall i :: 0 <= i < |parts| ==> sep !in parts[i]
    ensures Split(JoinWith(parts, sep), sep) == parts
  {
    if |parts| == 1 {
      assert Find(parts[0], sep).None?;
    } else {
      var rest := JoinWith(parts[1..], sep);
      SplitJoin(parts[1..], sep);
      FindAfter(parts[0], sep, rest);
      var s := parts[0] + [sep] + rest;
      assert s[..|parts[0]|] == parts[0];
      assert s[|parts[0]| + 1..] == rest;
      assert parts == [parts[0]] + parts[1..];
    }
  }

  /** Rust's `char::is_whitespace`: the Unicode White_Space property. */
  predicate IsWhitespace(c: char)
  {
    || ('\t' <= c <= '\r')
    || c == ' '
    || c == '\U{85}'
    || c == '\U{A0}'
    || c == '\U{1680}'
    || ('\U{2000}' <= c <= '\U{200A}')
    || c == '\U{2028}'
    || c == '\U{2029}'
    || c == '\U{202F}'
    || c == '\U{205F}'
    || c == '\U{3000}'
  }

  /** Number of whitespace characters at the start of `s`. */
  function LeadingWhitespace(s: string): (k: nat)
    ensures k <= |s|
    ensures forall i :: 0 <= i < k ==> IsWhitespace(s[i])
    ensures k < |s| ==> !IsWhitespace(s[k])
  {
    if |s| == 0 || !IsWhitespace(s[0]) then 0
    else 1 + LeadingWhitespace(s[1..])
  }

  /** Length of `s` once its trailing whitespace is dropped. */
  function WithoutTrailingWhitespace(s: string): (k: nat)
    ensures k <= |s|
    ensures forall i :: k <= i < |s| ==> IsWhitespace(s[i])
    ensures k > 0 ==> !IsWhitespace(s[k - 1])
  {
    if |s| == 0 || !IsWhitespace(s[|s| - 1]) then |s|
    else WithoutTrailingWhitespace(s[..|s| - 1])
  }

  /** `str::trim`: the slice of `s` that starts at its first non-whitespace character and ends
      at its last one; everything cut off on either side is whitespace. */
  function Trim(s: string): (r: string)
    ensures LeadingWhitespace(s) + |r| <= |s|
    ensures r == s[LeadingWhitespace(s)..LeadingWhitespace(s) + |r|]
    ensures forall i :: 0 <= i < |s| && !(LeadingWhitespace(s) <= i < LeadingWhitespace(s) + |r|) ==> IsWhitespace(s[i])
    ensures |r| > 0 ==> !IsWhitespace(r[0]) && !IsWhitespace(r[|r| - 1])
  {
    var lo := LeadingWhitespace(s);
    var t := s[lo..];
    var hi := WithoutTrailingWhitespace(t);
    assert forall i :: lo <= i < |s| ==> s[i] == t[i - lo];
    t[..hi]
  }

  /** True of a string that `trim` leaves as it is. */
  predicate IsTrimmed(s: string)
  {
    |s| == 0 || (!IsWhitespace(s[0]) && !IsWhitespace(s[|s| - 1]))
  }

  /** `trim` is the identity exactly on trimmed strings, so trimming twice is trimming once. */
  lemma TrimFixpoint(s: string)
    ensures Trim(s) == s <==> IsTrimmed(s)
    ensures Trim(Trim(s)) == Trim(s)
  {
    var r := Trim(s);
    if IsTrimmed(s) && |s| > 0 {
      assert LeadingWhitespace(s) == 0;
      assert !IsWhitespace(s[|s| - 1]);
    }
    if IsTrimmed(s) && |s| == 0 {
      assert r == s;
    }
    assert IsTrimmed(r);
    if |r| > 0 {
      assert LeadingWhitespace(r) == 0;
    }
  }

  /** A character absent from `s` is absent from `trim(s)`. */
  lemma TrimKeepsOut(s: string, c: char)
    requires c !in s
    ensures c !in Trim(s)
  {
    var r := Trim(s);
    var lo := LeadingWhitespace(s);
    forall k | 0 <= k < |r|
      ensures r[k] != c
    {
      assert r[k] == s[lo + k];
    }
  }

  predicate IsDigit(c: char)
  {
    '0' <= c <= '9'
  }

  predicate AllDigits(s: string)
  {
    forall i :: 0 <= i < |s| ==> IsDigit(s[i])
  }

  /** The number a string of decimal digits denotes, most significant digit first. */
  function DecimalValue(s: string): nat
    requires AllDigits(s)
  {
    if |s| == 0 then 0
    else DecimalValue(s[..|s| - 1]) * 10 + (s[|s| - 1] as int - '0' as int)
  }

  /** The shortest decimal rendering of `n` (`usize`'s `Display`). */
  function Decimal(n: nat): (r: string)
    ensures |r| > 0 && AllDigits(r)
    ensures DecimalValue(r) == n
  {
    var last := ('0' as int + n % 10) as char;
    if n < 10 then [last]
    else
      var r := Decimal(n / 10) + [last];
      assert r[..|r| - 1] == Decimal(n / 10);
      r
  }

  /** One past the largest `usize` on a 64-bit target. */
  const USIZE_LIMIT: nat := 0x1_0000_0000_0000_0000

  type Usize = n: nat | n < USIZE_LIMIT

  /** `usize::from_str`: an optional leading `+`, then at least one ASCII digit and nothing
      else; a value that does not fit in 64 bits is an overflow error. */
  function ParseUsize(s: string): (r: Option<Usize>)
    ensures r.Some? ==> |s| > 0 && (IsDigit(s[0]) || (s[0] == '+' && |s| > 1))
    ensures r.Some? ==> forall i :: 0 < i < |s| ==> IsDigit(s[i])
  {
    if |s| == 0 then None
    else
      var digits := if s[0] == '+' then s[1..] else s;
      if |digits| == 0 || !AllDigits(digits) then None
      else if DecimalValue(digits) < USIZE_LIMIT then Some(DecimalValue(digits))
      else None
  }

  /** Every non-empty digit string is accepted, with or without a `+` sign and whatever its
      leading zeros, exactly when its value fits in 64 bits, and then denotes that value. With
      the shape `ParseUsize` demands of what it accepts, this fixes its result on every input. */
  lemma ParseDigits(d: string)
    requires |d| > 0 && AllDigits(d)
    ensures DecimalValue(d) < USIZE_LIMIT ==>
      ParseUsize(d) == Some(DecimalValue(d)) && ParseUsize("+" + d) == Some(DecimalValue(d))
    ensures DecimalValue(d) >= USIZE_LIMIT ==> ParseUsize(d).None? && ParseUsize("+" + d).None?
  {
    assert ("+" + d)[1..] == d;
  }

  /** Every `usize` parses back from its decimal rendering, with or without a `+` sign. */
  lemma ParseDecimal(n: Usize)
    ensures ParseUsize(Decimal(n)) == Some(n)
    ensures ParseUsize("+" + Decimal(n)) == Some(n)
  {
    var d := Decimal(n);
    assert ("+" + d)[1..] == d;
  }

}
