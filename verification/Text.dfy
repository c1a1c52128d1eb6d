/** The string operations of the Rust standard library that the commands, the
    parsers and the signed message rely on: `split`, `join`, `trim`, and decimal
    parsing and printing of unsigned integers. */
module Text {
  import opened Prelude

  // ----- split and join -----

  /** `str::split` on one character: always at least one piece. */
  function Split(s: string, sep: char): (parts: seq<string>)
    ensures |parts| >= 1
    ensures Join(parts, sep) == s
    ensures forall p | p in parts :: sep !in p
  {
    if s == "" then [""]
    else if s[0] == sep then [""] + Split(s[1..], sep)
    else
      var rest := Split(s[1..], sep);
      [[s[0]] + rest[0]] + rest[1..]
  }

  /** `[String]::join` with a one-character separator. */
  function Join(parts: seq<string>, sep: char): string {
    if parts == [] then ""
    else if |parts| == 1 then parts[0]
    else parts[0] + [sep] + Join(parts[1..], sep)
  }

  lemma {:induction false} SplitAppend(a: string, b: string, sep: char)
    ensures Split(a + [sep] + b, sep) == Split(a, sep) + Split(b, sep)
  {
    var whole := a + [sep] + b;
    if a == "" {
      assert whole[1..] == b;
    } else {
      assert whole[1..] == a[1..] + [sep] + b;
      SplitAppend(a[1..], b, sep);
    }
  }

  lemma {:induction false} SplitFree(a: string, sep: char)
    requires sep !in a
    ensures Split(a, sep) == [a]
  {
    if a != "" {
      SplitFree(a[1..], sep);
    }
  }

  /** Splitting undoes joining for separator-free pieces. */
  lemma {:induction false} SplitJoin(parts: seq<string>, sep: char)
    requires parts != []
    requires forall p | p in parts :: sep !in p
    ensures Split(Join(parts, sep), sep) == parts
  {
    SplitFree(parts[0], sep);
    if |parts| > 1 {
      SplitAppend(parts[0], Join(parts[1..], sep), sep);
      SplitJoin(parts[1..], sep);
    }
  }

  // ----- trim -----

  /** `char::is_whitespace`: the Unicode White_Space property. */
  predicate IsWhitespace(c: char) {
    var n := c as int;
    || 9 <= n <= 13 || n == 32 || n == 0x85 || n == 0xA0 || n == 0x1680
    || 0x2000 <= n <= 0x200A || n == 0x2028 || n == 0x2029 || n == 0x202F
    || n == 0x205F || n == 0x3000
  }

  /** The 25 characters in full. */
  lemma WhitespaceIs(c: char)
    ensures IsWhitespace(c) <==>
              c in "\t\n\U{B}\U{C}\r \U{85}\U{A0}\U{1680}\U{2000}\U{2001}\U{2002}\U{2003}\U{2004}\U{2005}" ||
              c in "\U{2006}\U{2007}\U{2008}\U{2009}\U{200A}\U{2028}\U{2029}\U{202F}\U{205F}\U{3000}"
  {}

  predicate Trimmed(s: string) {
    s == "" || (!IsWhitespace(s[0]) && !IsWhitespace(s[|s| - 1]))
  }

  function TrimStart(s: string): (r: string)
    ensures r == "" || !IsWhitespace(r[0])
    ensures |r| <= |s| && r == s[|s| - |r|..]
  {
    if s != "" && IsWhitespace(s[0]) then TrimStart(s[1..]) else s
  }

  function TrimEnd(s: string): (r: string)
    ensures r == "" || !IsWhitespace(r[|r| - 1])
    ensures r <= s
  {
    if s != "" && IsWhitespace(s[|s| - 1]) then TrimEnd(s[..|s| - 1]) else s
  }

  function Trim(s: string): (r: string)
    ensures Trimmed(r)
    ensures forall c | c in r :: c in s
    ensures Trimmed(s) ==> r == s
  {
    TrimEnd(TrimStart(s))
  }

  function TrimAll(parts: seq<string>): (tags: seq<string>)
    ensures |tags| == |parts|
    ensures forall i | 0 <= i < |tags| :: tags[i] == Trim(parts[i])
  {
    seq(|parts|, i requires 0 <= i < |parts| => Trim(parts[i]))
  }

  /** Leading and trailing whitespace never changes the trimmed string. */
  lemma {:induction false} TrimPad(w: char, s: string)
    requires IsWhitespace(w)
    ensures Trim([w] + s) == Trim(s)
    ensures Trim(s + [w]) == Trim(s)
  {
    assert ([w] + s)[1..] == s;
    TrimStartPadEnd(s, w);
  }

  lemma {:induction false} TrimStartPadEnd(s: string, w: char)
    requires IsWhitespace(w)
    ensures TrimEnd(TrimStart(s + [w])) == TrimEnd(TrimStart(s))
  {
    if s == "" {
      assert s + [w] == [w];
      assert TrimStart([w]) == TrimStart([w][1..]) == "";
    } else if IsWhitespace(s[0]) {
      assert (s + [w])[1..] == s[1..] + [w];
      TrimStartPadEnd(s[1..], w);
    } else {
      assert (s + [w])[..|s|] == s;
    }
  }

  // ----- byte slices -----

  function Utf8Length(c: char): (n: nat)
    ensures 1 <= n <= 4
  {
    var code := c as int;
    if code < 0x80 then 1 else if code < 0x800 then 2 else if code < 0x1_0000 then 3 else 4
  }

  /** Byte n of the text is the start of a character, or the end of the text. */
  predicate CharBoundary(s: string, n: nat) {
    n == 0 || (s != "" && Utf8Length(s[0]) <= n && CharBoundary(s[1..], n - Utf8Length(s[0])))
  }

  function ByteLength(s: string): nat {
    if s == "" then 0 else Utf8Length(s[0]) + ByteLength(s[1..])
  }

  /** `&s[..n.min(s.len())]` does not panic. */
  predicate Sliceable(s: string, n: nat) {
    ByteLength(s) <= n || CharBoundary(s, n)
  }

  /** Text that is plain ASCII up to that byte can be sliced there. */
  lemma {:induction false} AsciiSliceable(s: string, n: nat)
    requires forall i | 0 <= i < |s| && i < n :: s[i] as int < 0x80
    ensures Sliceable(s, n)
  {
    if s != "" && n > 0 {
      AsciiSliceable(s[1..], n - 1);
    }
  }

  lemma {:induction false} BoundaryIff(s: string, n: nat)
    ensures CharBoundary(s, n) <==> exists k | 0 <= k <= |s| :: ByteLength(s[..k]) == n
  {
    if n == 0 {
      assert ByteLength(s[..0]) == 0;
    } else if s != "" {
      var tail, head := s[1..], Utf8Length(s[0]);
      forall k | 1 <= k <= |s|
        ensures ByteLength(s[..k]) == head + ByteLength(tail[..k - 1])
      {
        assert s[..k][1..] == tail[..k - 1];
      }
      if head <= n {
        BoundaryIff(tail, n - head);
        if CharBoundary(tail, n - head) {
          var k :| 0 <= k <= |tail| && ByteLength(tail[..k]) == n - head;
          assert ByteLength(s[..k + 1]) == n;
        }
      }
    }
  }

  /** A slice of at most n bytes does not panic exactly when it ends between two
      characters; these have one to four bytes. */
  lemma SliceableIff(s: string, n: nat)
    ensures Sliceable(s, n) <==> ByteLength(s) <= n || exists k | 0 <= k <= |s| :: ByteLength(s[..k]) == n
    ensures Utf8Length('\U{7F}') == 1 && Utf8Length('\U{80}') == 2 && Utf8Length('\U{7FF}') == 2
    ensures Utf8Length('\U{800}') == 3 && Utf8Length('\U{FFFF}') == 3 && Utf8Length('\U{10000}') == 4
  {
    BoundaryIff(s, n);
  }

  // ----- decimal numbers -----

  predicate IsDigit(c: char) { '0' <= c <= '9' }

  function DigitChar(d: nat): (c: char)
    requires d < 10
    ensures IsDigit(c) && c as int - '0' as int == d
  {
    ('0' as int + d) as char
  }

  /** `to_string` of an unsigned integer. */
  function Print(n: nat): (s: string)
    ensures s != ""
    ensures forall c | c in s :: IsDigit(c)
  {
    if n < 10 then [DigitChar(n)] else Print(n / 10) + [DigitChar(n % 10)]
  }

  function Value(s: string): nat
    requires forall c | c in s :: IsDigit(c)
  {
    if s == "" then 0
    else
      assert s[|s| - 1] in s && IsDigit(s[|s| - 1]);
      Value(s[..|s| - 1]) * 10 + (s[|s| - 1] as int - '0' as int)
  }

  /** `str::parse` for an unsigned integer type whose values are below `bound`:
      one optional `+`, at least one digit, no overflow. */
  function ParseUnsigned(s: string, bound: nat): Option<nat> {
    var digits := if s != "" && s[0] == '+' then s[1..] else s;
    if digits == "" || exists c | c in digits :: !IsDigit(c) then None
    else if Value(digits) < bound then Some(Value(digits)) else None
  }

  lemma {:induction false} ValuePrint(n: nat)
    ensures Value(Print(n)) == n
  {
    if n >= 10 {
      ValuePrint(n / 10);
      var s := Print(n / 10) + [DigitChar(n % 10)];
      assert s[..|s| - 1] == Print(n / 10);
    } else {
      var s := [DigitChar(n)];
      assert s[..|s| - 1] == "";
    }
  }

  /** Parsing a printed number gives the number back exactly when it fits. */
  lemma ParsePrint(n: nat, bound: nat)
    ensures ParseUnsigned(Print(n), bound) == if n < bound then Some(n) else None
  {
    ValuePrint(n);
    assert Print(n)[0] in Print(n);
  }

  predicate AllZeros(s: string) {
    forall c | c in s :: c == '0'
  }

  lemma {:induction false} ValueZeros(zeros: string, s: string)
    requires AllZeros(zeros) && forall c | c in s :: IsDigit(c)
    ensures (forall c | c in zeros + s :: IsDigit(c)) && Value(zeros + s) == Value(s)
  {
    if s != "" {
      assert (zeros + s)[..|zeros + s| - 1] == zeros + s[..|s| - 1];
      ValueZeros(zeros, s[..|s| - 1]);
    } else if zeros != "" {
      assert zeros + s == zeros && zeros[..|zeros| - 1] + "" == zeros[..|zeros| - 1];
      assert zeros[|zeros| - 1] in zeros;
      var front := zeros[..|zeros| - 1];
      assert forall c | c in front :: c in zeros;
      ValueZeros(front, "");
    }
  }

  lemma PrintSnoc(front: nat, digit: nat)
    requires digit < 10
    ensures front > 0 ==> Print(front * 10 + digit) == Print(front) + [DigitChar(digit)]
    ensures front == 0 ==> Print(front * 10 + digit) == [DigitChar(digit)] && Print(front) == "0"
  {}

  lemma ValueSnoc(s: string, c: char)
    requires (forall d | d in s :: IsDigit(d)) && IsDigit(c)
    ensures (forall d | d in s + [c] :: IsDigit(d)) && Value(s + [c]) == Value(s) * 10 + (c as int - '0' as int)
  {
    assert (s + [c])[..|s|] == s;
  }

  /** Digits are zeros followed by the printed value. */
  lemma {:induction false} DigitsAreZerosAndPrint(s: string) returns (zeros: string)
    requires s != "" && forall c | c in s :: IsDigit(c)
    ensures AllZeros(zeros) && s == zeros + Print(Value(s))
  {
    var n := |s| - 1;
    var front, last := s[..n], s[n];
    assert last in s && s == front + [last] && forall c | c in front :: c in s;
    ValueSnoc(front, last);
    PrintSnoc(Value(front), last as int - '0' as int);
    if n == 0 {
      zeros := "";
    } else {
      zeros := DigitsAreZerosAndPrint(front);
      if Value(front) == 0 {
        zeros := zeros + "0";
      }
    }
  }

  /** An unsigned number as text: an optional plus, zeros, and the printed number. */
  predicate Spells(s: string, plus: bool, zeros: string, n: nat) {
    var digits := zeros + Print(n);
    AllZeros(zeros) && s == if plus then "+" + digits else digits
  }

  lemma ParseDigits(digits: string, bound: nat)
    requires digits != "" && forall c | c in digits :: IsDigit(c)
    ensures ParseUnsigned(digits, bound) == if Value(digits) < bound then Some(Value(digits)) else None
    ensures ParseUnsigned("+" + digits, bound) == ParseUnsigned(digits, bound)
  {
    assert digits[0] in digits;
    assert ("+" + digits)[1..] == digits;
  }

  lemma SpelledParses(s: string, plus: bool, zeros: string, n: nat, bound: nat)
    requires Spells(s, plus, zeros, n)
    ensures ParseUnsigned(s, bound) == if n < bound then Some(n) else None
  {
    var digits := zeros + Print(n);
    ValueZeros(zeros, Print(n));
    ValuePrint(n);
    ParseDigits(digits, bound);
  }

  lemma ParsedSpells(s: string, bound: nat) returns (plus: bool, zeros: string)
    requires ParseUnsigned(s, bound).Some?
    ensures Spells(s, plus, zeros, ParseUnsigned(s, bound).value)
  {
    plus := s[0] == '+';
    var digits := if plus then s[1..] else s;
    zeros := DigitsAreZerosAndPrint(digits);
    assert plus ==> s == "+" + digits;
  }

  /** Exactly these spellings are accepted, if the number is in range. */
  lemma ParseUnsignedIff(s: string, bound: nat, n: nat)
    ensures ParseUnsigned(s, bound) == Some(n) <==> n < bound && exists plus, zeros :: Spells(s, plus, zeros, n)
  {
    if ParseUnsigned(s, bound) == Some(n) {
      var plus, zeros := ParsedSpells(s, bound);
    }
    if n < bound {
      if plus, zeros :| Spells(s, plus, zeros, n) {
        SpelledParses(s, plus, zeros, n, bound);
      }
    }
  }
}
