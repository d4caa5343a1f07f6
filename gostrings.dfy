/**
 * The three functions of Go's `strings` package the ban checker relies on:
 * `Split` (with a one-character separator), `TrimSpace` and `HasPrefix`.
 * `Join`, which the ban checker never calls, is here only as the inverse of
 * `Split` in the lemmas about it. Strings are sequences of Unicode code points.
 */
module GoStrings {

  /** Number of occurrences of `c` in `s`. */
  function Count(s: string, c: char): (n: nat)
    ensures n <= |s|
  {
    if |s| == 0 then 0 else (if s[0] == c then 1 else 0) + Count(s[1..], c)
  }

  /** No occurrence is counted exactly when there is none. */
  lemma {:induction false} CountZero(s: string, c: char)
    ensures Count(s, c) == 0 <==> c !in s
  {
    if |s| > 0 {
      CountZero(s[1..], c);
      assert s == [s[0]] + s[1..];
    }
  }

  /**
   * `strings.Split(s, sep)` for a one-character separator: the pieces of `s`
   * between occurrences of `sep`, including empty pieces; `Split("")` is `[""]`.
   */
  function Split(s: string, sep: char): (parts: seq<string>)
    ensures |parts| >= 1
  {
    if |s| == 0 then [""]
    else
      var rest := Split(s[1..], sep);
      if s[0] == sep then [""] + rest
      else [[s[0]] + rest[0]] + rest[1..]
  }

  /** A split has one more piece than the string has separators. */
  lemma {:induction false} SplitCount(s: string, sep: char)
    ensures |Split(s, sep)| == Count(s, sep) + 1
  {
    if |s| > 0 {
      SplitCount(s[1..], sep);
    }
  }

  /** No piece of a split contains the separator. */
  lemma {:induction false} SplitPiecesFree(s: string, sep: char)
    ensures forall k :: 0 <= k < |Split(s, sep)| ==> sep !in Split(s, sep)[k]
  {
    if |s| > 0 {
      SplitPiecesFree(s[1..], sep);
      var rest := Split(s[1..], sep);
      if s[0] != sep {
        assert sep !in [s[0]] + rest[0] by {
          assert sep !in rest[0];
        }
      }
    }
  }

  /** `strings.Join(parts, sep)`: the inverse of `Split`. */
  function Join(parts: seq<string>, sep: char): (s: string)
  {
    if |parts| == 0 then ""
    else if |parts| == 1 then parts[0]
    else parts[0] + [sep] + Join(parts[1..], sep)
  }

  /** Joining the pieces of a split gives the original string back. */
  lemma {:induction false} JoinSplit(s: string, sep: char)
    ensures Join(Split(s, sep), sep) == s
  {
    if |s| > 0 {
      var rest := Split(s[1..], sep);
      JoinSplit(s[1..], sep);
      if s[0] == sep {
        assert Split(s, sep) == [""] + rest;
        assert ([""] + rest)[1..] == rest;
      } else {
        var parts := Split(s, sep);
        assert parts == [[s[0]] + rest[0]] + rest[1..];
        if |rest| > 1 {
          assert parts[1..] == rest[1..];
        }
      }
      assert s == [s[0]] + s[1..];
    }
  }

  /** A string without the separator splits into itself alone. */
  lemma SplitWithoutSeparator(s: string, sep: char)
    requires sep !in s
    ensures Split(s, sep) == [s]
  {
    CountZero(s, sep);
    SplitCount(s, sep);
    JoinSplit(s, sep);
  }

  /** One step of `Split`: the first character either ends a piece or starts the first one. */
  lemma SplitCons(x: char, rest: string, sep: char)
    ensures var r := Split(rest, sep);
      Split([x] + rest, sep) == if x == sep then [""] + r else [[x] + r[0]] + r[1..]
  {
    assert ([x] + rest)[0] == x;
    assert ([x] + rest)[1..] == rest;
  }

  /** Splitting at one occurrence of the separator splits each side independently. */
  lemma {:induction false} SplitAround(a: string, sep: char, b: string)
    ensures Split(a + [sep] + b, sep) == Split(a, sep) + Split(b, sep)
  {
    if |a| == 0 {
      assert a + [sep] + b == [sep] + b;
      SplitCons(sep, b, sep);
    } else {
      var x, a' := a[0], a[1..];
      var t := a' + [sep] + b;
      ConsAppend(a, sep, b);
      var ra, rb := Split(a', sep), Split(b, sep);
      assert Split(t, sep) == ra + rb by {
        SplitAround(a', sep, b);
      }
      SplitCons(x, t, sep);
      SplitCons(x, a', sep);
      if x != sep {
        JoinFirstPiece(x, ra, rb);
      } else {
        ConsPiece("", ra, rb);
      }
    }
  }

  /** A non-empty sequence followed by more is its head in front of the rest. */
  lemma ConsAppend<T>(a: seq<T>, y: T, b: seq<T>)
    requires |a| > 0
    ensures a + [y] + b == [a[0]] + (a[1..] + [y] + b)
  {
    assert a == [a[0]] + a[1..];
  }

  /** Extending the first piece of `ra + rb` extends the first piece of `ra`. */
  lemma JoinFirstPiece<T>(x: T, ra: seq<seq<T>>, rb: seq<seq<T>>)
    requires |ra| >= 1
    ensures [[x] + (ra + rb)[0]] + (ra + rb)[1..] == ([[x] + ra[0]] + ra[1..]) + rb
  {
    assert (ra + rb)[0] == ra[0];
    assert (ra + rb)[1..] == ra[1..] + rb;
  }

  /** A piece put in front of `ra + rb` is put in front of `ra`. */
  lemma ConsPiece<T>(p: seq<T>, ra: seq<seq<T>>, rb: seq<seq<T>>)
    ensures [p] + (ra + rb) == ([p] + ra) + rb
  {
  }

  /** Every list of separator-free pieces is what splitting its join gives. */
  lemma {:induction false} SplitJoin(parts: seq<string>, sep: char)
    requires |parts| >= 1
    requires forall k :: 0 <= k < |parts| ==> sep !in parts[k]
    ensures Split(Join(parts, sep), sep) == parts
  {
    SplitWithoutSeparator(parts[0], sep);
    if |parts| > 1 {
      SplitJoin(parts[1..], sep);
      SplitAround(parts[0], sep, Join(parts[1..], sep));
      assert parts == [parts[0]] + parts[1..];
    }
  }

  /** Two separator-free pieces joined by the separator split back into the two. */
  lemma SplitTwo(a: string, sep: char, b: string)
    requires sep !in a && sep !in b
    ensures Split(a + [sep] + b, sep) == [a, b]
  {
    SplitAround(a, sep, b);
    SplitWithoutSeparator(a, sep);
    SplitWithoutSeparator(b, sep);
  }

  /** Three separator-free pieces joined by the separator split back into the three. */
  lemma SplitThree(a: string, sep: char, b: string, c: string)
    requires sep !in a && sep !in b && sep !in c
    ensures Split(a + [sep] + b + [sep] + c, sep) == [a, b, c]
  {
    var t := b + [sep] + c;
    assert a + [sep] + b + [sep] + c == a + [sep] + t;
    calc {
      Split(a + [sep] + t, sep);
      { SplitAround(a, sep, t); }
      Split(a, sep) + Split(t, sep);
      { SplitWithoutSeparator(a, sep); SplitTwo(b, sep, c); }
      [a] + [b, c];
    }
  }

  /**
   * Go's `unicode.IsSpace`: the ASCII and Latin-1 spaces and the other code
   * points with the Unicode White_Space property.
   */
  predicate IsSpace(c: char)
  {
    var n := c as int;
    || 0x09 <= n <= 0x0D || n == 0x20 || n == 0x85 || n == 0xA0 || n == 0x1680
    || 0x2000 <= n <= 0x200A || n == 0x2028 || n == 0x2029 || n == 0x202F || n == 0x205F || n == 0x3000
  }

  /** The number of spaces `s` starts with. */
  function LeadingSpaces(s: string): (n: nat)
    ensures n <= |s|
  {
    if |s| > 0 && IsSpace(s[0]) then 1 + LeadingSpaces(s[1..]) else 0
  }

  /** The leading spaces are a run of spaces not followed by another space. */
  lemma {:induction false} LeadingSpacesAreMaximal(s: string)
    ensures var n := LeadingSpaces(s);
      && (forall k :: 0 <= k < n ==> IsSpace(s[k]))
      && (n == |s| || !IsSpace(s[n]))
  {
    if |s| > 0 && IsSpace(s[0]) {
      var s', n := s[1..], LeadingSpaces(s);
      LeadingSpacesAreMaximal(s');
      forall k | 0 < k < n ensures IsSpace(s[k]) {
        assert s[k] == s'[k - 1];
      }
      if n < |s| {
        assert s[n] == s'[n - 1];
      }
    }
  }

  /** The number of spaces `s` ends with. */
  function TrailingSpaces(s: string): (n: nat)
    ensures n <= |s|
  {
    if |s| > 0 && IsSpace(s[|s| - 1]) then 1 + TrailingSpaces(s[..|s| - 1]) else 0
  }

  /** The trailing spaces are a run of spaces not preceded by another space. */
  lemma {:induction false} TrailingSpacesAreMaximal(s: string)
    ensures var n := TrailingSpaces(s);
      && (forall k :: |s| - n <= k < |s| ==> IsSpace(s[k]))
      && (n == |s| || !IsSpace(s[|s| - n - 1]))
  {
    if |s| > 0 && IsSpace(s[|s| - 1]) {
      var s', n := s[..|s| - 1], TrailingSpaces(s);
      TrailingSpacesAreMaximal(s');
      forall k | |s| - n <= k < |s| - 1 ensures IsSpace(s[k]) {
        assert s[k] == s'[k];
      }
      if n < |s| {
        assert s[|s| - n - 1] == s'[|s'| - (n - 1) - 1];
      }
    }
  }

  /**
   * `strings.TrimSpace(s)`: the part of `s` from its first non-space to its
   * last non-space.
   */
  function TrimSpace(s: string): (r: string)
    ensures |r| == 0 || (!IsSpace(r[0]) && !IsSpace(r[|r| - 1]))
  {
    var i := LeadingSpaces(s);
    var t := s[i..];
    LeadingSpacesAreMaximal(s);
    TrailingSpacesAreMaximal(t);
    var r := t[..|t| - TrailingSpaces(t)];
    assert |r| > 0 ==> r[0] == s[i] && r[|r| - 1] == t[|t| - TrailingSpaces(t) - 1];
    r
  }

  /** A string with no space at either end is left as it is. */
  lemma TrimSpaceKeepsTrimmed(s: string)
    requires |s| == 0 || (!IsSpace(s[0]) && !IsSpace(s[|s| - 1]))
    ensures TrimSpace(s) == s
  {
  }

  /** Trimming twice is trimming once. */
  lemma TrimSpaceIdempotent(s: string)
    ensures TrimSpace(TrimSpace(s)) == TrimSpace(s)
  {
    TrimSpaceKeepsTrimmed(TrimSpace(s));
  }

  /**
   * `TrimSpace(s)` is the run of `s` that starts after its leading spaces and
   * is followed only by spaces.
   */
  lemma {:induction false} TrimSpaceIsInfix(s: string)
    ensures var i := LeadingSpaces(s); var j := i + |TrimSpace(s)|;
      && j <= |s| && TrimSpace(s) == s[i..j]
      && (forall k :: 0 <= k < i ==> IsSpace(s[k]))
      && (forall k :: j <= k < |s| ==> IsSpace(s[k]))
  {
    var i := LeadingSpaces(s);
    var t := s[i..];
    LeadingSpacesAreMaximal(s);
    TrailingSpacesAreMaximal(t);
    var j := |s| - TrailingSpaces(t);
    assert TrimSpace(s) == s[i..j];
    forall k | j <= k < |s| ensures IsSpace(s[k]) {
      assert s[k] == t[k - i];
    }
  }

  /** `strings.HasPrefix(s, p)`. */
  predicate HasPrefix(s: string, p: string)
  {
    |p| <= |s| && s[..|p|] == p
  }
}
