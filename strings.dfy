/**
 * The Foundation string operations the importer relies on, written out over `seq<char>`:
 * `components(separatedBy:)` with a string separator, `trimmingCharacters(in:)`,
 * `replacingOccurrences(of:with:)` for a single character, ASCII approximations of
 * `lowercased()` and `capitalized`, and Swift's `Int(String)` with `Int.description`.
 */
module Strings {
  import opened Wrappers

  // ---------------------------------------------------------------------------
  // Character classes
  // ---------------------------------------------------------------------------

  /** Foundation's `CharacterSet.newlines`. */
  predicate IsNewline(c: char) {
    c == '\n' || c == '\U{B}' || c == '\U{C}' || c == '\r' || c == '\U{85}' || c == '\U{2028}' || c == '\U{2029}'
  }

  /** Foundation's `CharacterSet.whitespaces`: tab and the Unicode space separators. */
  predicate IsSpace(c: char) {
    || c == ' ' || c == '\t' || c == '\U{A0}' || c == '\U{1680}'
    || ('\U{2000}' <= c <= '\U{200A}')
    || c == '\U{202F}' || c == '\U{205F}' || c == '\U{3000}'
  }

  /** Foundation's `CharacterSet.whitespacesAndNewlines`. */
  predicate IsSpaceOrNewline(c: char) {
    IsSpace(c) || IsNewline(c)
  }

  predicate IsAsciiLetter(c: char) {
    ('a' <= c <= 'z') || ('A' <= c <= 'Z')
  }

  // ---------------------------------------------------------------------------
  // Deleting one character
  // ---------------------------------------------------------------------------

  /** `s.replacingOccurrences(of: String(c), with: "")`. */
  function RemoveAll(s: string, c: char): (r: string)
    ensures c !in r
    ensures c !in s ==> r == s
    ensures |r| <= |s|
  {
    if s == [] then []
    else (if s[0] == c then [] else [s[0]]) + RemoveAll(s[1..], c)
  }

  lemma {:induction false} RemoveAllAppend(a: string, b: string, c: char)
    ensures RemoveAll(a + b, c) == RemoveAll(a, c) + RemoveAll(b, c)
  {
    if a == [] {
      assert a + b == b;
    } else {
      assert (a + b)[1..] == a[1..] + b;
      RemoveAllAppend(a[1..], b, c);
      if a[0] != c {
        assert RemoveAll(a + b, c) == [a[0]] + RemoveAll(a[1..] + b, c);
      }
    }
  }

  /** The catalog's `replacingOccurrences(of: "\"", with: "")`. */
  function StripQuotes(s: string): string {
    RemoveAll(s, '"')
  }

  // ---------------------------------------------------------------------------
  // Case mapping (ASCII letters only)
  // ---------------------------------------------------------------------------

  function LowerChar(c: char): char {
    if 'A' <= c <= 'Z' then (c as int + 32) as char else c
  }

  function UpperChar(c: char): char {
    if 'a' <= c <= 'z' then (c as int - 32) as char else c
  }

  /** `lowercased()`, on ASCII letters. */
  function Lower(s: string): string {
    seq(|s|, i requires 0 <= i < |s| => LowerChar(s[i]))
  }

  /**
   * `capitalized`, on ASCII letters: the first letter of every word upper-case and every
   * other letter lower-case, words being separated by whitespace and newlines.
   */
  function Capitalized(s: string): string {
    CapitalizedFrom(s, true)
  }

  function CapitalizedFrom(s: string, atWordStart: bool): (r: string)
    ensures |r| == |s|
    ensures forall i :: 0 <= i < |s| && !IsAsciiLetter(s[i]) ==> r[i] == s[i]
    ensures forall i :: 0 <= i < |s| && IsAsciiLetter(s[i]) ==> IsAsciiLetter(r[i])
  {
    if s == [] then []
    else
      var c := if IsSpaceOrNewline(s[0]) then s[0]
               else if atWordStart then UpperChar(s[0])
               else LowerChar(s[0]);
      [c] + CapitalizedFrom(s[1..], IsSpaceOrNewline(s[0]))
  }

  /**
   * `capitalized` character by character: whitespace and newlines are kept, a letter that
   * starts a word (first, or after whitespace) is upper-cased, any other is lower-cased.
   */
  lemma {:induction false} CapitalizedPointwise(s: string, atWordStart: bool)
    ensures forall i :: 0 <= i < |s| ==>
              CapitalizedFrom(s, atWordStart)[i] ==
                if IsSpaceOrNewline(s[i]) then s[i]
                else if (if i == 0 then atWordStart else IsSpaceOrNewline(s[i - 1])) then UpperChar(s[i])
                else LowerChar(s[i])
    decreases |s|
  {
    if s != [] {
      var r := CapitalizedFrom(s, atWordStart);
      var rest := CapitalizedFrom(s[1..], IsSpaceOrNewline(s[0]));
      CapitalizedPointwise(s[1..], IsSpaceOrNewline(s[0]));
      forall i | 0 <= i < |s|
        ensures r[i] == if IsSpaceOrNewline(s[i]) then s[i]
                        else if (if i == 0 then atWordStart else IsSpaceOrNewline(s[i - 1])) then UpperChar(s[i])
                        else LowerChar(s[i])
      {
        if i > 0 {
          assert r[i] == rest[i - 1] && s[1..][i - 1] == s[i];
          if i > 1 {
            assert s[1..][i - 2] == s[i - 1];
          }
        }
      }
    }
  }

  /** Lower-case letters inside a word stay as they are. */
  lemma {:induction false} CapitalizedFromLowerTail(s: string)
    requires forall i :: 0 <= i < |s| ==> 'a' <= s[i] <= 'z'
    ensures CapitalizedFrom(s, false) == s
    decreases |s|
  {
    if s != [] {
      CapitalizedFromLowerTail(s[1..]);
      assert s == [s[0]] + s[1..];
    }
  }

  /** A single word already written with an initial capital is its own capitalization. */
  lemma CapitalizedWord(s: string)
    requires |s| >= 1 && 'A' <= s[0] <= 'Z'
    requires forall i :: 1 <= i < |s| ==> 'a' <= s[i] <= 'z'
    ensures Capitalized(s) == s
  {
    CapitalizedFromLowerTail(s[1..]);
    assert s == [s[0]] + s[1..];
  }

  // ---------------------------------------------------------------------------
  // Trimming
  // ---------------------------------------------------------------------------

  function DropLeading(s: string, drop: char -> bool): (r: string)
    ensures |r| <= |s| && r == s[|s| - |r|..]
    ensures r == [] || !drop(r[0])
    ensures forall i :: 0 <= i < |s| - |r| ==> drop(s[i])
  {
    if s != [] && drop(s[0]) then DropLeading(s[1..], drop) else s
  }

  function DropTrailing(s: string, drop: char -> bool): (r: string)
    ensures |r| <= |s| && r == s[..|r|]
    ensures r == [] || !drop(r[|r| - 1])
    ensures forall i :: |r| <= i < |s| ==> drop(s[i])
  {
    if s != [] && drop(s[|s| - 1]) then DropTrailing(s[..|s| - 1], drop) else s
  }

  /** `trimmingCharacters(in:)` for the character set `drop`. */
  function Trim(s: string, drop: char -> bool): (r: string)
    ensures |r| <= |s|
    ensures r == [] || (!drop(r[0]) && !drop(r[|r| - 1]))
  {
    DropTrailing(DropLeading(s, drop), drop)
  }

  /** Trimming leaves a string with nothing to trim as it is. */
  lemma TrimKeepsTrimmed(s: string, drop: char -> bool)
    requires s == [] || (!drop(s[0]) && !drop(s[|s| - 1]))
    ensures Trim(s, drop) == s
  {
  }

  /** Trimming twice is trimming once. */
  lemma TrimIdempotent(s: string, drop: char -> bool)
    ensures Trim(Trim(s, drop), drop) == Trim(s, drop)
  {
    TrimKeepsTrimmed(Trim(s, drop), drop);
  }

  /**
   * Trimming keeps one contiguous piece of the string: what it removes before the piece and
   * after it is made only of characters of the set.
   */
  lemma TrimRemovesOnlyDropped(s: string, drop: char -> bool)
    ensures var k := |s| - |DropLeading(s, drop)|;
            var r := Trim(s, drop);
            && k + |r| <= |s| && r == s[k..k + |r|]
            && (forall i :: 0 <= i < k ==> drop(s[i]))
            && (forall i :: k + |r| <= i < |s| ==> drop(s[i]))
  {
    var l := DropLeading(s, drop);
    PieceOfSuffix(s, |s| - |l|, l, DropTrailing(l, drop), drop);
  }

  /** A prefix `r` of the suffix `l` of `s` from `k`, followed in `l` only by dropped characters, sits at `k` in `s`. */
  lemma PieceOfSuffix(s: string, k: nat, l: string, r: string, drop: char -> bool)
    requires k <= |s| && l == s[k..] && |r| <= |l| && r == l[..|r|]
    requires forall i :: |r| <= i < |l| ==> drop(l[i])
    ensures r == s[k..k + |r|]
    ensures forall i :: k + |r| <= i < |s| ==> drop(s[i])
  {
    forall i | k + |r| <= i < |s|
      ensures drop(s[i])
    {
      assert s[i] == l[i - k];
    }
  }

  // ---------------------------------------------------------------------------
  // Splitting on a separator string
  // ---------------------------------------------------------------------------

  /** `sep` appears in `s` as a contiguous piece. */
  predicate Occurs(s: string, sep: string)
    decreases |s|
  {
    |sep| <= |s| && (s[..|sep|] == sep || (|s| > 0 && Occurs(s[1..], sep)))
  }

  /**
   * `s.components(separatedBy: sep)`: the pieces between the occurrences of `sep` found by
   * scanning left to right; the result is never empty.
   */
  function Split(s: string, sep: string): (parts: seq<string>)
    requires sep != []
    ensures |parts| >= 1
    decreases |s|
  {
    if |s| < |sep| then [s]
    else if s[..|sep|] == sep then [[]] + Split(s[|sep|..], sep)
    else
      var rest := Split(s[1..], sep);
      [[s[0]] + rest[0]] + rest[1..]
  }

  /** `parts.joined(separator: sep)`. */
  function Join(parts: seq<string>, sep: string): string
    requires |parts| >= 1
  {
    if |parts| == 1 then parts[0] else parts[0] + sep + Join(parts[1..], sep)
  }

  lemma JoinPrepend(x: string, parts: seq<string>, sep: string)
    requires |parts| >= 1
    ensures Join([x + parts[0]] + parts[1..], sep) == x + Join(parts, sep)
  {
    var q := [x + parts[0]] + parts[1..];
    assert q[1..] == parts[1..];
  }

  lemma JoinAfterEmpty(parts: seq<string>, sep: string)
    requires |parts| >= 1
    ensures Join([[]] + parts, sep) == sep + Join(parts, sep)
  {
    assert ([[]] + parts)[1..] == parts;
  }

  /** Joining the pieces with the separator gives back the string. */
  lemma {:induction false} SplitJoin(s: string, sep: string)
    requires sep != []
    ensures Join(Split(s, sep), sep) == s
    decreases |s|
  {
    if |s| < |sep| {
    } else if s[..|sep|] == sep {
      SplitJoin(s[|sep|..], sep);
      JoinAfterEmpty(Split(s[|sep|..], sep), sep);
      assert s == sep + s[|sep|..];
    } else {
      var rest := Split(s[1..], sep);
      SplitJoin(s[1..], sep);
      JoinPrepend([s[0]], rest, sep);
      assert s == [s[0]] + s[1..];
    }
  }

  /** There is more than one piece exactly when the separator occurs. */
  lemma {:induction false} SplitManyIffOccurs(s: string, sep: string)
    requires sep != []
    ensures |Split(s, sep)| > 1 <==> Occurs(s, sep)
    decreases |s|
  {
    if |s| < |sep| {
    } else if s[..|sep|] == sep {
    } else {
      SplitManyIffOccurs(s[1..], sep);
    }
  }

  /** A string without the separator is its own single piece. */
  lemma SplitWithoutSeparator(s: string, sep: string)
    requires sep != [] && !Occurs(s, sep)
    ensures Split(s, sep) == [s]
  {
    SplitManyIffOccurs(s, sep);
    SplitJoin(s, sep);
  }

  /**
   * When the first occurrence of `sep` in `x + sep + y` is the one after `x`, the first piece
   * is `x` and the others are the pieces of `y`.
   */
  lemma {:induction false} SplitAtFirst(x: string, sep: string, y: string)
    requires sep != [] && !Occurs(x + sep[..|sep| - 1], sep)
    ensures Split(x + sep + y, sep) == [x] + Split(y, sep)
    decreases |x|
  {
    var s := x + sep + y;
    if x == [] {
      SplitAtSeparator(sep, y);
    } else {
      FirstCharBeforeSeparator(x, sep, y);
      SplitAtFirst(x[1..], sep, y);
      assert [s[0]] + x[1..] == x;
    }
  }

  /** A string that starts with the separator splits into an empty piece and the pieces of the rest. */
  lemma SplitAtSeparator(sep: string, y: string)
    requires sep != []
    ensures Split(sep + y, sep) == [[]] + Split(y, sep)
  {
    var s := sep + y;
    assert s[..|sep|] == sep;
    assert s[|sep|..] == y;
  }

  /** Before the first occurrence, the first character does not start the separator. */
  lemma FirstCharBeforeSeparator(x: string, sep: string, y: string)
    requires sep != [] && x != [] && !Occurs(x + sep[..|sep| - 1], sep)
    ensures var s := x + sep + y;
            && |s| >= |sep| && s[..|sep|] != sep && s[1..] == x[1..] + sep + y
            && !Occurs(x[1..] + sep[..|sep| - 1], sep)
  {
    var s := x + sep + y;
    var w := x + sep[..|sep| - 1];
    assert s[..|sep|] != sep by {
      NotOccursUnfolds(w, sep);
      PrefixAgrees(x, sep, y);
    }
    assert !Occurs(x[1..] + sep[..|sep| - 1], sep) by {
      NotOccursUnfolds(w, sep);
      assert w[1..] == x[1..] + sep[..|sep| - 1];
    }
    TailOfAppend(x + sep, y);
    TailOfAppend(x, sep);
  }

  /** A string that can hold the separator but does not contain it neither starts with it nor contains it after its first character. */
  lemma NotOccursUnfolds(w: string, sep: string)
    requires |sep| <= |w| && !Occurs(w, sep)
    ensures w[..|sep|] != sep && !Occurs(w[1..], sep)
  {
  }

  /** `x + sep + y` and `x + sep[..|sep| - 1]` agree on their first `|sep|` characters. */
  lemma PrefixAgrees(x: string, sep: string, y: string)
    requires sep != [] && x != []
    ensures (x + sep + y)[..|sep|] == (x + sep[..|sep| - 1])[..|sep|]
  {
    var s := x + sep + y;
    var w := x + sep[..|sep| - 1];
    forall i | 0 <= i < |sep|
      ensures s[i] == w[i]
    {
      if i >= |x| {
        assert s[i] == sep[i - |x|];
      }
    }
  }

  lemma TailOfAppend(x: string, z: string)
    requires x != []
    ensures (x + z)[1..] == x[1..] + z
  {
  }

  /** The first piece is a prefix of the string. */
  lemma {:induction false} SplitFirstIsPrefix(s: string, sep: string)
    requires sep != []
    ensures var p := Split(s, sep)[0]; |p| <= |s| && p == s[..|p|]
    decreases |s|
  {
    if |s| >= |sep| && s[..|sep|] != sep {
      SplitFirstIsPrefix(s[1..], sep);
    }
  }

  /** No piece holds the separator: the string is cut at every occurrence. */
  lemma {:induction false} SplitPiecesAvoidSeparator(s: string, sep: string)
    requires sep != []
    ensures forall k :: 0 <= k < |Split(s, sep)| ==> !Occurs(Split(s, sep)[k], sep)
    decreases |s|
  {
    var parts := Split(s, sep);
    if |s| < |sep| {
    } else if s[..|sep|] == sep {
      SplitPiecesAvoidSeparator(s[|sep|..], sep);
      assert forall k :: 1 <= k < |parts| ==> parts[k] == Split(s[|sep|..], sep)[k - 1];
    } else {
      var rest := Split(s[1..], sep);
      SplitPiecesAvoidSeparator(s[1..], sep);
      SplitFirstIsPrefix(s[1..], sep);
      var p := [s[0]] + rest[0];
      assert p == s[..|p|];
      if |sep| <= |p| {
        assert p[..|sep|] == s[..|sep|];
      }
      assert p[1..] == rest[0];
      assert forall k :: 1 <= k < |parts| ==> parts[k] == rest[k];
    }
  }

  /** When the separator occurs, it follows the first piece. */
  lemma {:induction false} SplitFirstFollowedBySeparator(s: string, sep: string)
    requires sep != [] && |Split(s, sep)| > 1
    ensures var p := Split(s, sep)[0]; |p| + |sep| <= |s| && s[|p|..|p| + |sep|] == sep
    decreases |s|
  {
    if s[..|sep|] != sep {
      SplitFirstFollowedBySeparator(s[1..], sep);
    }
  }

  /**
   * When the separator occurs, the first piece is cut at its first occurrence: the first piece
   * followed by all but the last character of the separator still holds no occurrence.
   */
  lemma {:induction false} SplitFirstAtFirstOccurrence(s: string, sep: string)
    requires sep != [] && |Split(s, sep)| > 1
    ensures !Occurs(Split(s, sep)[0] + sep[..|sep| - 1], sep)
    decreases |s|
  {
    if s[..|sep|] != sep {
      var rest := Split(s[1..], sep);
      SplitFirstAtFirstOccurrence(s[1..], sep);
      SplitFirstFollowedBySeparator(s, sep);
      SplitFirstIsPrefix(s, sep);
      var p := Split(s, sep)[0];
      var w := p + sep[..|sep| - 1];
      assert sep[..|sep| - 1] == s[|p|..|p| + |sep| - 1];
      assert w == s[..|w|];
      if |sep| <= |w| {
        assert w[..|sep|] == s[..|sep|];
      }
      assert w[1..] == rest[0] + sep[..|sep| - 1];
    }
  }

  /** With more than one piece, the joined text ends with the separator and the last piece. */
  lemma {:induction false} JoinEndsWithLast(parts: seq<string>, sep: string)
    requires |parts| > 1
    ensures var tail := sep + parts[|parts| - 1]; var j := Join(parts, sep);
            |tail| <= |j| && j[|j| - |tail|..] == tail
    decreases |parts|
  {
    if |parts| > 2 {
      JoinEndsWithLast(parts[1..], sep);
    }
  }

  /** An occurrence stays an occurrence when text is appended. */
  lemma {:induction false} OccursAppend(s: string, x: string, sep: string)
    requires Occurs(s, sep)
    ensures Occurs(s + x, sep)
    decreases |s|
  {
    var t := s + x;
    assert t[..|s|] == s;
    if s[..|sep|] == sep {
      assert t[..|sep|] == s[..|sep|];
    } else {
      assert t[1..] == s[1..] + x;
      OccursAppend(s[1..], x, sep);
    }
  }

  /** An occurrence of `x + sep` holds an occurrence of `sep`. */
  lemma {:induction false} OccursSuffixOfSeparator(s: string, x: string, sep: string)
    requires Occurs(s, x + sep)
    ensures Occurs(s, sep)
    decreases |s|
  {
    if s[..|x + sep|] == x + sep {
      OccursAt(s, |x|, sep);
    } else {
      OccursSuffixOfSeparator(s[1..], x, sep);
    }
  }

  /** `sep` found at position `k` of `s` is an occurrence. */
  lemma {:induction false} OccursAt(s: string, k: nat, sep: string)
    requires k + |sep| <= |s| && s[k..k + |sep|] == sep
    ensures Occurs(s, sep)
    decreases k
  {
    if k == 0 {
      assert s[..|sep|] == s[k..k + |sep|];
    } else {
      assert s[1..][k - 1..k - 1 + |sep|] == s[k..k + |sep|];
      OccursAt(s[1..], k - 1, sep);
    }
  }

  /** Every character of an occurring separator is in the string. */
  lemma {:induction false} OccursHasChar(s: string, sep: string, k: nat)
    requires Occurs(s, sep) && k < |sep|
    ensures sep[k] in s
    decreases |s|
  {
    if s[..|sep|] == sep {
      assert s[k] == sep[k];
    } else {
      OccursHasChar(s[1..], sep, k);
    }
  }

  /** If `sep` contains no ASCII letter, re-casing letters does not make it appear or vanish. */
  lemma {:induction false} OccursIgnoresLetterCase(s: string, r: string, sep: string)
    requires |r| == |s|
    requires forall i :: 0 <= i < |s| && !IsAsciiLetter(s[i]) ==> r[i] == s[i]
    requires forall i :: 0 <= i < |s| && IsAsciiLetter(s[i]) ==> IsAsciiLetter(r[i])
    requires forall i :: 0 <= i < |sep| ==> !IsAsciiLetter(sep[i])
    ensures Occurs(s, sep) <==> Occurs(r, sep)
    decreases |s|
  {
    if |sep| <= |s| {
      if s[..|sep|] == sep {
        assert r[..|sep|] == sep by {
          forall i | 0 <= i < |sep| ensures r[i] == sep[i] {
            assert s[i] == sep[i];
          }
        }
      }
      if r[..|sep|] == sep {
        assert s[..|sep|] == sep by {
          forall i | 0 <= i < |sep| ensures s[i] == sep[i] {
            assert r[i] == sep[i];
          }
        }
      }
      if |s| > 0 {
        OccursIgnoresLetterCase(s[1..], r[1..], sep);
      }
    }
  }

  // ---------------------------------------------------------------------------
  // Decimal integers: Swift's Int(String) and Int.description
  // ---------------------------------------------------------------------------

  const Int64Min: int := -0x8000_0000_0000_0000
  const Int64Max: int := 0x7FFF_FFFF_FFFF_FFFF

  predicate IsDigit(c: char) {
    '0' <= c <= '9'
  }

  predicate AllDigits(s: string) {
    forall i :: 0 <= i < |s| ==> IsDigit(s[i])
  }

  /** A digit string without superfluous leading zeros. */
  predicate IsCanonicalDigits(s: string) {
    s != [] && AllDigits(s) && (s[0] != '0' || |s| == 1)
  }

  function DigitsValue(s: string): nat
    requires AllDigits(s)
    decreases |s|
  {
    if s == [] then 0 else DigitsValue(s[..|s| - 1]) * 10 + (s[|s| - 1] as int - '0' as int)
  }

  function DigitChar(d: nat): char
    requires d < 10
  {
    ('0' as int + d) as char
  }

  /** `n.description` for a non-negative `n`. */
  function NatToString(n: nat): (r: string)
    ensures IsCanonicalDigits(r)
    decreases n
  {
    if n < 10 then [DigitChar(n)] else NatToString(n / 10) + [DigitChar(n % 10)]
  }

  /** `Int.description`: decimal, with a leading `-` for negative values. */
  function IntToString(n: int): string {
    if n < 0 then "-" + NatToString(-n) else NatToString(n)
  }

  /**
   * Swift's `Int(String)`: an optional `+` or `-`, then one or more decimal digits, with a
   * value that fits in 64 bits; anything else is `nil`.
   */
  function ParseInt(s: string): (r: Option<int>)
    ensures r.Some? ==> Int64Min <= r.value <= Int64Max
  {
    var negative := |s| > 0 && s[0] == '-';
    var digits := if |s| > 0 && (s[0] == '-' || s[0] == '+') then s[1..] else s;
    if digits == [] || !AllDigits(digits) then None
    else
      var v := if negative then -(DigitsValue(digits) as int) else DigitsValue(digits) as int;
      if Int64Min <= v <= Int64Max then Some(v) else None
  }

  /** Printing then reading the digits of `n` gives `n` back. */
  lemma {:induction false} NatToStringValue(n: nat)
    ensures DigitsValue(NatToString(n)) == n
    decreases n
  {
    if n >= 10 {
      NatToStringValue(n / 10);
      var s := NatToString(n);
      assert s[..|s| - 1] == NatToString(n / 10);
    }
  }

  lemma {:induction false} LeadingNonZeroPositive(s: string)
    requires s != [] && AllDigits(s) && s[0] != '0'
    ensures DigitsValue(s) > 0
    decreases |s|
  {
    if |s| > 1 {
      LeadingNonZeroPositive(s[..|s| - 1]);
    }
  }

  /** A digit string without superfluous leading zeros is exactly how its value prints. */
  lemma {:induction false} CanonicalDigitsPrint(s: string)
    requires IsCanonicalDigits(s)
    ensures NatToString(DigitsValue(s)) == s
    decreases |s|
  {
    var t := s[..|s| - 1];
    var d := s[|s| - 1] as int - '0' as int;
    if t == [] {
      assert s == [s[0]];
    } else {
      assert t[0] == s[0];
      LeadingNonZeroPositive(t);
      CanonicalDigitsPrint(t);
      var n := DigitsValue(s);
      assert n == DigitsValue(t) * 10 + d;
      assert n / 10 == DigitsValue(t) && n % 10 == d;
      assert s == t + [s[|s| - 1]];
    }
  }

  /** `Int(n.description) == n` for every 64-bit `n`. */
  lemma ParseIntRoundTrip(n: int)
    requires Int64Min <= n <= Int64Max
    ensures ParseInt(IntToString(n)) == Some(n)
  {
    if n < 0 {
      NatToStringValue(-n);
      ParseNegative(NatToString(-n));
    } else {
      NatToStringValue(n);
      ParseUnsigned(NatToString(n));
    }
  }

  /** Digits without a sign parse to their value when it fits. */
  lemma ParseUnsigned(digits: string)
    requires digits != [] && AllDigits(digits) && DigitsValue(digits) <= Int64Max
    ensures ParseInt(digits) == Some(DigitsValue(digits))
  {
    assert IsDigit(digits[0]);
  }

  /** A minus sign and digits parse to the negated value when it fits. */
  lemma ParseNegative(digits: string)
    requires digits != [] && AllDigits(digits) && Int64Min <= -(DigitsValue(digits) as int)
    ensures ParseInt("-" + digits) == Some(-(DigitsValue(digits) as int))
  {
    assert ("-" + digits)[1..] == digits;
  }

  /** A canonical digit string within 64 bits parses to its value and prints back unchanged. */
  lemma ParseCanonicalDigits(s: string)
    requires IsCanonicalDigits(s) && DigitsValue(s) <= Int64Max
    ensures ParseInt(s) == Some(DigitsValue(s))
    ensures IntToString(DigitsValue(s)) == s
  {
    ParseUnsigned(s);
    CanonicalDigitsPrint(s);
  }
}
