/** The pieces of Rust's string library that the modelled code relies on: `split_once`,
    `split` and `join` on a separator, `lines`, `trim`, and formatting and parsing of `usize`.
    Strings are sequences of characters and lengths count characters; wherever a length
    matters the text is taken to be ASCII, so that it equals the byte length. */
module Strings {
  import opened Wrappers

  // ---------------------------------------------------------------- split_once

  /** `s.split_once(c)`: the text before the first `c` and the text after it. */
  function SplitOnce(s: string, c: char): (r: Option<(string, string)>)
    ensures r.None? <==> c !in s
    ensures r.Some? ==> s == r.value.0 + [c] + r.value.1 && c !in r.value.0
  {
    if s == [] then None
    else if s[0] == c then Some(([], s[1..]))
    else
      match SplitOnce(s[1..], c)
      case None => None
      case Some((before, after)) => Some(([s[0]] + before, after))
  }

  /** Splitting at the first `c` recovers the two halves around a `c` that has none before it. */
  lemma {:induction false} SplitOnceAt(before: string, c: char, after: string)
    requires c !in before
    ensures SplitOnce(before + [c] + after, c) == Some((before, after))
  {
    var s := before + [c] + after;
    if before == [] {
      assert s == [c] + after;
    } else {
      assert s[1..] == before[1..] + [c] + after;
      SplitOnceAt(before[1..], c, after);
      assert [before[0]] + before[1..] == before;
    }
  }

  // ---------------------------------------------------------------- split and join

  /** `split` on a separator, for strings (`str::split(char)`) and for slices
      (`<[T]>::split(|x| x == sep)`): always at least one part, none holding the separator. */
  function Split<T(==)>(s: seq<T>, sep: T): (r: seq<seq<T>>)
    ensures |r| >= 1
    ensures forall k :: 0 <= k < |r| ==> sep !in r[k]
    ensures s != [] ==> r != [[]]
    ensures s == [] || s[0] == sep ==> r[0] == []
    ensures s != [] ==> (r[|r| - 1] == [] <==> s[|s| - 1] == sep)
  {
    if s == [] then [[]]
    else if s[0] == sep then [[]] + Split(s[1..], sep)
    else
      var rest := Split(s[1..], sep);
      [[s[0]] + rest[0]] + rest[1..]
  }

  /** `join(sep)`: the parts with one separator between each two neighbours. */
  function JoinWith<T>(parts: seq<seq<T>>, sep: T): seq<T>
  {
    if parts == [] then []
    else if |parts| == 1 then parts[0]
    else parts[0] + [sep] + JoinWith(parts[1..], sep)
  }

  lemma {:induction false} JoinWithSnoc<T>(parts: seq<seq<T>>, sep: T, last: seq<T>)
    requires parts != []
    ensures JoinWith(parts + [last], sep) == JoinWith(parts, sep) + [sep] + last
  {
    if |parts| == 1 {
      assert parts + [last] == [parts[0], last];
    } else {
      assert (parts + [last])[1..] == parts[1..] + [last];
      JoinWithSnoc(parts[1..], sep, last);
    }
  }

  lemma {:induction false} SplitWithoutSep<T>(a: seq<T>, sep: T)
    requires sep !in a
    ensures Split(a, sep) == [a]
  {
    if a != [] {
      SplitWithoutSep(a[1..], sep);
      assert [a[0]] + a[1..] == a;
    }
  }

  lemma {:induction false} SplitAtSep<T>(a: seq<T>, sep: T, b: seq<T>)
    requires sep !in a
    ensures Split(a + [sep] + b, sep) == [a] + Split(b, sep)
  {
    if a == [] {
      assert a + [sep] + b == [sep] + b;
      assert ([sep] + b)[1..] == b;
    } else {
      assert (a + [sep] + b)[1..] == a[1..] + [sep] + b;
      SplitAtSep(a[1..], sep, b);
      assert [a[0]] + a[1..] == a;
    }
  }

  /** Splitting what `join` produced gives back the parts, when no part holds the separator. */
  lemma {:induction false} SplitJoin<T>(parts: seq<seq<T>>, sep: T)
    requires parts != []
    requires forall k :: 0 <= k < |parts| ==> sep !in parts[k]
    ensures Split(JoinWith(parts, sep), sep) == parts
  {
    if |parts| == 1 {
      SplitWithoutSep(parts[0], sep);
    } else {
      SplitJoin(parts[1..], sep);
      SplitAtSep(parts[0], sep, JoinWith(parts[1..], sep));
    }
  }

  /** Joining the parts of a split restores the text. */
  lemma {:induction false} JoinSplit<T>(s: seq<T>, sep: T)
    ensures JoinWith(Split(s, sep), sep) == s
  {
    if s != [] {
      JoinSplit(s[1..], sep);
      var rest := Split(s[1..], sep);
      if s[0] == sep {
        assert [[]] + rest == [[]] + rest[..];
        assert s == [sep] + s[1..];
      } else {
        JoinWithGrowFirst([s[0]], rest, sep);
        assert s == [s[0]] + s[1..];
      }
    }
  }

  /** Growing the first part at its front grows the join by the same elements. */
  lemma JoinWithGrowFirst<T>(x: seq<T>, parts: seq<seq<T>>, sep: T)
    requires parts != []
    ensures JoinWith([x + parts[0]] + parts[1..], sep) == x + JoinWith(parts, sep)
  {
    var q := [x + parts[0]] + parts[1..];
    assert q[1..] == parts[1..];
    if |parts| > 1 {
      var tail := JoinWith(parts[1..], sep);
      assert x + parts[0] + [sep] + tail == x + (parts[0] + [sep] + tail);
    }
  }

  predicate AllNonEmpty<T>(parts: seq<seq<T>>)
  {
    forall k :: 0 <= k < |parts| ==> parts[k] != []
  }

  /** Non-empty, not starting or ending with `sep`, and never two `sep` in a row. */
  predicate WellSeparated<T(==)>(s: seq<T>, sep: T)
  {
    s != [] && s[0] != sep && s[|s| - 1] != sep
    && forall k :: 0 <= k < |s| - 1 ==> !(s[k] == sep && s[k + 1] == sep)
  }

  /** Every part of a split is non-empty exactly when the sequence is non-empty, neither starts
      nor ends with the separator, and never holds two separators in a row. */
  lemma {:induction false} SplitPartsNonEmpty<T>(s: seq<T>, sep: T)
    ensures AllNonEmpty(Split(s, sep)) <==> WellSeparated(s, sep)
  {
    if |s| > 1 && s[0] != sep {
      NonEmptyCons(s, sep);
      WellSeparatedCons(s, sep);
      if s[1] == sep {
        SplitPartsNonEmpty(s[2..], sep);
      } else {
        SplitPartsNonEmpty(s[1..], sep);
      }
    }
  }

  /** Past a first element that is not the separator, the parts are all non-empty exactly
      when those of the rest after the following separator, if any, are. */
  lemma NonEmptyCons<T>(s: seq<T>, sep: T)
    requires |s| > 1 && s[0] != sep
    ensures s[1] == sep ==> (AllNonEmpty(Split(s, sep)) <==> AllNonEmpty(Split(s[2..], sep)))
    ensures s[1] != sep ==> (AllNonEmpty(Split(s, sep)) <==> AllNonEmpty(Split(s[1..], sep)))
  {
    var parts := Split(s, sep);
    assert parts[0] != [];
    AllNonEmptyFirst(parts);
    if s[1] == sep {
      SplitAfterSep(s, sep);
    } else {
      SplitAfterOther(s, sep);
      AllNonEmptyFirst(Split(s[1..], sep));
    }
  }

  /** Past a first element that is not the separator, the sequence is well separated exactly
      when the rest after the following separator, if any, is. */
  lemma WellSeparatedCons<T>(s: seq<T>, sep: T)
    requires |s| > 1 && s[0] != sep
    ensures s[1] == sep && |s| > 2 ==> (WellSeparated(s, sep) <==> WellSeparated(s[2..], sep))
    ensures s[1] == sep && |s| == 2 ==> !WellSeparated(s, sep)
    ensures s[1] != sep ==> (WellSeparated(s, sep) <==> WellSeparated(s[1..], sep))
  {
    var d := if s[1] == sep then 2 else 1;
    if d < |s| {
      var t := s[d..];
      assert forall k :: 0 <= k < |t| ==> s[k + d] == t[k];
      assert t[0] == s[d] && t[|t| - 1] == s[|s| - 1];
      if WellSeparated(t, sep) {
        forall k | 0 <= k < |s| - 1
          ensures !(s[k] == sep && s[k + 1] == sep)
        {
          if k >= d {
            assert s[k] == t[k - d] && s[k + 1] == t[k + 1 - d];
          }
        }
      }
      if WellSeparated(s, sep) && d == 2 {
        assert !(s[1] == sep && s[2] == sep);
      }
      if WellSeparated(s, sep) {
        forall k | 0 <= k < |t| - 1
          ensures !(t[k] == sep && t[k + 1] == sep)
        {
          assert s[k + d] == t[k] && s[k + 1 + d] == t[k + 1];
        }
      }
    }
  }

  /** A list of parts is all non-empty when its first part is and the others all are. */
  lemma AllNonEmptyFirst<T>(parts: seq<seq<T>>)
    requires parts != []
    ensures AllNonEmpty(parts) <==> parts[0] != [] && AllNonEmpty(parts[1..])
  {
    if parts[0] != [] && AllNonEmpty(parts[1..]) {
      forall k | 1 <= k < |parts|
        ensures parts[k] != []
      {
        assert parts[k] == parts[1..][k - 1];
      }
    }
  }

  /** After an element and a separator, the parts past the first are those of the rest. */
  lemma SplitAfterSep<T>(s: seq<T>, sep: T)
    requires |s| > 1 && s[0] != sep && s[1] == sep
    ensures Split(s, sep)[1..] == Split(s[2..], sep)
  {
    assert s[1..][1..] == s[2..];
  }

  /** After two elements neither of which is the separator, the split of the rest has a
      non-empty first part followed by the parts past the first of the whole. */
  lemma SplitAfterOther<T>(s: seq<T>, sep: T)
    requires |s| > 1 && s[0] != sep && s[1] != sep
    ensures var rest := Split(s[1..], sep);
            rest[0] != [] && rest[1..] == Split(s, sep)[1..]
  {
  }

  // ---------------------------------------------------------------- lines

  /** `str::lines`: the text split at '\n', where a final '\n' ends the last line rather than
      starting an empty one; the empty text has no lines. */
  function Lines(s: string): (r: seq<string>)
    ensures forall k :: 0 <= k < |r| ==> '\n' !in r[k]
    ensures r == [] <==> s == []
  {
    if s == [] then []
    else
      var parts := Split(s, '\n');
      if parts[|parts| - 1] == [] then parts[..|parts| - 1] else parts
  }

  /** Lines joined back with '\n' give the text, less its final '\n' when it has one. */
  lemma LinesRejoin(s: string)
    ensures s != [] && s[|s| - 1] == '\n' ==> JoinWith(Lines(s), '\n') + "\n" == s
    ensures s == [] || s[|s| - 1] != '\n' ==> JoinWith(Lines(s), '\n') == s
  {
    if s != [] {
      var parts := Split(s, '\n');
      JoinSplit(s, '\n');
      if parts[|parts| - 1] == [] {
        var init := parts[..|parts| - 1];
        assert parts == init + [[]];
        if init != [] {
          JoinWithSnoc(init, '\n', []);
        }
      }
    }
  }

  /** Lines of a '\n'-join give back the lines, when none holds '\n' and the last is not empty. */
  lemma {:induction false} LinesOfJoin(ls: seq<string>)
    requires forall k :: 0 <= k < |ls| ==> '\n' !in ls[k]
    requires ls != [] ==> ls[|ls| - 1] != []
    ensures Lines(JoinWith(ls, '\n')) == ls
  {
    if ls != [] {
      var s := JoinWith(ls, '\n');
      JoinWithLast(ls, '\n');
      var last := ls[|ls| - 1];
      assert '\n' !in last;
      assert last[|last| - 1] in last;
      SplitJoin(ls, '\n');
      LinesOfUnterminated(s);
    }
  }

  lemma LinesOfUnterminated(s: string)
    requires s != [] && s[|s| - 1] != '\n'
    ensures Lines(s) == Split(s, '\n')
  {
  }

  // ---------------------------------------------------------------- trim

  /** `char::is_whitespace`: the Unicode White_Space characters. */
  predicate IsWhitespace(c: char)
  {
    ('\t' <= c <= '\r') || c == ' ' || c == '\U{85}' || c == '\U{A0}' || c == '\U{1680}'
    || ('\U{2000}' <= c <= '\U{200A}') || c == '\U{2028}' || c == '\U{2029}' || c == '\U{202F}'
    || c == '\U{205F}' || c == '\U{3000}'
  }

  /** How many whitespace characters `s` starts with. */
  function LeadingWhitespace(s: string): (n: nat)
    ensures n <= |s|
    ensures forall k :: 0 <= k < n ==> IsWhitespace(s[k])
    ensures n == |s| || !IsWhitespace(s[n])
  {
    if s != [] && IsWhitespace(s[0]) then 1 + LeadingWhitespace(s[1..]) else 0
  }

  /** How many whitespace characters `s` ends with. */
  function TrailingWhitespace(s: string): (n: nat)
    ensures n <= |s|
    ensures forall k :: |s| - n <= k < |s| ==> IsWhitespace(s[k])
    ensures n == |s| || !IsWhitespace(s[|s| - n - 1])
  {
    if s != [] && IsWhitespace(s[|s| - 1]) then 1 + TrailingWhitespace(s[..|s| - 1]) else 0
  }

  /** `str::trim`: the text without its leading and trailing whitespace. */
  function Trim(s: string): (r: string)
    ensures var i := LeadingWhitespace(s);
              i + |r| <= |s| && r == s[i..i + |r|]
              && (forall k :: 0 <= k < i ==> IsWhitespace(s[k]))
              && (forall k :: i + |r| <= k < |s| ==> IsWhitespace(s[k]))
    ensures r == [] || (!IsWhitespace(r[0]) && !IsWhitespace(r[|r| - 1]))
  {
    var i := LeadingWhitespace(s);
    var t := s[i..];
    t[..|t| - TrailingWhitespace(t)]
  }

  // ---------------------------------------------------------------- usize formatting and parsing

  predicate IsDigit(c: char)
  {
    '0' <= c <= '9'
  }

  predicate AllDigits(s: string)
  {
    forall k :: 0 <= k < |s| ==> IsDigit(s[k])
  }

  function DigitChar(d: nat): (c: char)
    requires d < 10
    ensures IsDigit(c) && c as int - '0' as int == d
  {
    (d + '0' as int) as char
  }

  /** `format!("{}", n)` for an unsigned integer. */
  function Decimal(n: nat): (r: string)
    ensures r != [] && AllDigits(r)
  {
    if n < 10 then [DigitChar(n)] else Decimal(n / 10) + [DigitChar(n % 10)]
  }

  /** The number a string of decimal digits spells. */
  function DigitsValue(s: string): nat
    requires AllDigits(s)
  {
    if s == [] then 0 else DigitsValue(s[..|s| - 1]) * 10 + (s[|s| - 1] as int - '0' as int)
  }

  /** The digits `parse::<usize>()` reads: the text less one leading '+'. */
  function UnsignedDigits(s: string): string
  {
    if s != [] && s[0] == '+' then s[1..] else s
  }

  /** A digit string without its leading zeros, keeping at least one digit. */
  function StripLeadingZeros(d: string): string
  {
    if |d| > 1 && d[0] == '0' then StripLeadingZeros(d[1..]) else d
  }

  /** `str::parse::<usize>()`: an optional '+' followed by at least one decimal digit and
      nothing else; the value is the one whose decimal text is the digits less their leading
      zeros. */
  function ParseUsize(s: string): (r: Option<nat>)
    ensures r.None? <==>
      s == [] || s == "+" || exists k :: 0 <= k < |s| && !IsDigit(s[k]) && !(k == 0 && s[k] == '+')
    ensures r.Some? ==> StripLeadingZeros(UnsignedDigits(s)) == Decimal(r.value)
    ensures r.Some? ==> s != [] && ' ' !in s && '\n' !in s
  {
    var digits := UnsignedDigits(s);
    if digits != [] && AllDigits(digits) then
      CanonicalDigits(digits);
      Some(DigitsValue(digits))
    else
      assert digits != [] ==> exists k :: 0 <= k < |digits| && !IsDigit(digits[k]);
      assert digits != [] && digits != s ==>
        forall k :: 0 <= k < |digits| ==> digits[k] == s[k + 1];
      None
  }

  /** Digits less their leading zeros are the decimal text of their value. */
  lemma {:induction false} CanonicalDigits(d: string)
    requires d != [] && AllDigits(d)
    ensures StripLeadingZeros(d) == Decimal(DigitsValue(d))
  {
    var v := DigitsValue(d);
    if |d| == 1 {
      assert d[..|d| - 1] == [];
      assert v == DigitsValue(d[..|d| - 1]) * 10 + (d[|d| - 1] as int - '0' as int);
      assert DigitChar(v) == d[0];
    } else {
      var init, c := d[..|d| - 1], d[|d| - 1];
      var cd := c as int - '0' as int;
      assert d == init + [c];
      CanonicalDigits(init);
      var v' := DigitsValue(init);
      assert v == v' * 10 + cd;
      StripAppend(init, c);
      DecimalValue(v');
      assert DigitChar(cd) == c;
      if v' == 0 {
        assert Decimal(v') == "0";
      } else {
        assert v / 10 == v' && v % 10 == cd;
      }
    }
  }

  lemma {:induction false} StripAppend(x: string, c: char)
    requires x != []
    ensures StripLeadingZeros(x + [c])
            == if StripLeadingZeros(x) == "0" then [c] else StripLeadingZeros(x) + [c]
  {
    if x[0] == '0' && |x| > 1 {
      assert (x + [c])[1..] == x[1..] + [c];
      StripAppend(x[1..], c);
    } else if x[0] == '0' {
      assert x == "0";
      assert (x + [c])[1..] == [c];
    }
  }

  /** Parsing what `format!` wrote gives the number back. */
  lemma {:induction false} ParseDecimal(n: nat)
    ensures ParseUsize(Decimal(n)) == Some(n)
  {
    DecimalValue(n);
  }

  lemma {:induction false} DecimalValue(n: nat)
    ensures DigitsValue(Decimal(n)) == n
  {
    if n >= 10 {
      DecimalValue(n / 10);
      var d := Decimal(n);
      assert d[..|d| - 1] == Decimal(n / 10);
    }
  }

  /** Each element of a join is the separator or an element of one of the parts. */
  lemma {:induction false} JoinWithElement<T>(parts: seq<seq<T>>, sep: T, k: nat)
    requires k < |JoinWith(parts, sep)|
    ensures JoinWith(parts, sep)[k] == sep
            || exists p, q :: 0 <= p < |parts| && 0 <= q < |parts[p]| && JoinWith(parts, sep)[k] == parts[p][q]
  {
    if |parts| > 1 {
      var head := parts[0] + [sep];
      if k >= |head| {
        JoinWithElement(parts[1..], sep, k - |head|);
        var x := JoinWith(parts, sep)[k];
        if x != sep {
          var p, q :| 0 <= p < |parts[1..]| && 0 <= q < |parts[1..][p]| && x == parts[1..][p][q];
          assert x == parts[p + 1][q];
        }
      } else if k < |parts[0]| {
        assert JoinWith(parts, sep)[k] == parts[0][k];
      }
    } else {
      assert JoinWith(parts, sep)[k] == parts[0][k];
    }
  }

  /** A join ends with the last element of its last part, when that part is not empty. */
  lemma {:induction false} JoinWithLast<T>(parts: seq<seq<T>>, sep: T)
    requires parts != [] && parts[|parts| - 1] != []
    ensures var j := JoinWith(parts, sep);
      j != [] && j[|j| - 1] == parts[|parts| - 1][|parts[|parts| - 1]| - 1]
  {
    if |parts| > 1 {
      JoinWithLast(parts[1..], sep);
    }
  }
}
