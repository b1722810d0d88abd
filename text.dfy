/** The string operations of Rust's standard library that the command parser
    relies on: `starts_with`, `trim_start_matches`, `split` and
    `from_str_radix` with radix 16. */
module Text {
  import opened Wire

  predicate StartsWith<T(==)>(s: seq<T>, p: seq<T>) {
    |p| <= |s| && s[..|p|] == p
  }

  /** `trim_start_matches(p)`: removes `p` from the front for as long as the
      text starts with it, not just once. */
  function TrimStartMatches<T(==)>(s: seq<T>, p: seq<T>): (r: seq<T>)
    requires |p| > 0
    ensures !StartsWith(r, p)
    decreases |s|
  {
    if StartsWith(s, p) then TrimStartMatches(s[|p|..], p) else s
  }

  /** What is left after trimming is a tail of the text. */
  lemma {:induction false} TrimIsSuffix<T>(s: seq<T>, p: seq<T>)
    requires |p| > 0
    ensures var r := TrimStartMatches(s, p); |r| <= |s| && r == s[|s| - |r|..]
    decreases |s|
  {
    if StartsWith(s, p) {
      TrimIsSuffix(s[|p|..], p);
    }
  }

  function Repeat<T>(p: seq<T>, k: nat): seq<T>
  {
    if k == 0 then [] else p + Repeat(p, k - 1)
  }

  /** Every leading copy of the pattern goes, and what follows them stays. */
  lemma {:induction false} TrimStripsEveryCopy<T>(p: seq<T>, k: nat, s: seq<T>)
    requires |p| > 0 && !StartsWith(s, p)
    ensures TrimStartMatches(Repeat(p, k) + s, p) == s
  {
    if k > 0 {
      var t := Repeat(p, k) + s;
      assert t == p + (Repeat(p, k - 1) + s);
      assert t[|p|..] == Repeat(p, k - 1) + s;
      TrimStripsEveryCopy(p, k - 1, s);
    } else {
      assert Repeat(p, k) + s == s;
    }
  }

  /** `split(sep)`: the pieces between the separators, always at least one. */
  function Split<T(==)>(s: seq<T>, sep: T): (r: seq<seq<T>>)
    ensures |r| >= 1
    decreases |s|
  {
    if |s| == 0 then [[]]
    else
      var rest := Split(s[1..], sep);
      if s[0] == sep then [[]] + rest else [[s[0]] + rest[0]] + rest[1..]
  }

  /** No piece of a split holds the separator. */
  lemma {:induction false} SplitPiecesLackSeparator<T>(s: seq<T>, sep: T, i: nat)
    requires i < |Split(s, sep)|
    ensures sep !in Split(s, sep)[i]
    decreases |s|
  {
    if |s| > 0 {
      var rest := Split(s[1..], sep);
      if s[0] == sep {
        if i > 0 {
          SplitPiecesLackSeparator(s[1..], sep, i - 1);
        }
      } else if i == 0 {
        SplitPiecesLackSeparator(s[1..], sep, 0);
      } else {
        SplitPiecesLackSeparator(s[1..], sep, i);
      }
    }
  }

  /** The inverse of `Split`: the pieces glued back with the separator. */
  function Join<T>(parts: seq<seq<T>>, sep: T): seq<T>
    requires |parts| >= 1
  {
    if |parts| == 1 then parts[0] else parts[0] + [sep] + Join(parts[1..], sep)
  }

  /** Splitting loses nothing: joining the pieces gives the text back. */
  lemma {:induction false} JoinSplit<T>(s: seq<T>, sep: T)
    ensures Join(Split(s, sep), sep) == s
    decreases |s|
  {
    if |s| > 0 {
      var rest := Split(s[1..], sep);
      JoinSplit(s[1..], sep);
      if s[0] == sep {
        assert Split(s, sep)[1..] == rest;
      } else {
        var r := Split(s, sep);
        assert r[1..] == rest[1..];
        if |rest| == 1 {
          assert Join(r, sep) == [s[0]] + rest[0];
        } else {
          assert Join(rest, sep) == rest[0] + [sep] + Join(rest[1..], sep);
          assert Join(r, sep) == [s[0]] + rest[0] + [sep] + Join(rest[1..], sep);
        }
        assert s == [s[0]] + s[1..];
      }
    }
  }

  /** A piece with no separator in it comes out of `Split` whole. */
  lemma {:induction false} SplitNoSeparator<T>(a: seq<T>, sep: T)
    requires sep !in a
    ensures Split(a, sep) == [a]
    decreases |a|
  {
    if |a| > 0 {
      SplitNoSeparator(a[1..], sep);
      assert [a[0]] + a[1..] == a;
    }
  }

  /** A piece followed by the separator becomes the first element of the split. */
  lemma {:induction false} SplitFirst<T>(a: seq<T>, sep: T, t: seq<T>)
    requires sep !in a
    ensures Split(a + [sep] + t, sep) == [a] + Split(t, sep)
    decreases |a|
  {
    var s := a + [sep] + t;
    if |a| == 0 {
      assert s[1..] == t;
    } else {
      assert s[1..] == a[1..] + [sep] + t;
      SplitFirst(a[1..], sep, t);
      assert [a[0]] + a[1..] == a;
    }
  }

  /** Splitting the join of separator-free pieces gives the pieces back. */
  lemma {:induction false} SplitJoin<T>(parts: seq<seq<T>>, sep: T)
    requires |parts| >= 1
    requires forall i :: 0 <= i < |parts| ==> sep !in parts[i]
    ensures Split(Join(parts, sep), sep) == parts
    decreases |parts|
  {
    if |parts| == 1 {
      SplitNoSeparator(parts[0], sep);
    } else {
      SplitJoin(parts[1..], sep);
      SplitFirst(parts[0], sep, Join(parts[1..], sep));
      assert [parts[0]] + parts[1..] == parts;
    }
  }

  /** The digits `from_str_radix` reads: an optional leading `+` is dropped. */
  function UnsignedDigits(s: seq<char>): seq<char>
  {
    if |s| > 0 && s[0] == '+' then s[1..] else s
  }

  /** `from_str_radix(s, 16)` for an unsigned integer type whose values are
      below `bound`: an optional `+`, then at least one digit of either case,
      and a value that fits. */
  function ParseHexUnsigned(s: seq<char>, bound: nat): (r: Option<nat>)
    ensures r.Some? ==> r.value < bound
    ensures r.Some? ==> |s| > 0 && s[0] != '-'
  {
    var digits := UnsignedDigits(s);
    if |digits| > 0 && AllHex(digits) && HexValue(digits) < bound then Some(HexValue(digits)) else None
  }

  /** `from_str_radix(s, 16)` for `i32`: an optional sign, then digits; the
      magnitude of a negative number may reach 2^31. */
  function ParseHexI32(s: seq<char>): (r: Option<i32>)
    ensures r.Some? && r.value < 0 ==> |s| > 0 && s[0] == '-'
  {
    if |s| > 0 && s[0] == '-' then
      var digits := s[1..];
      if |digits| > 0 && AllHex(digits) && HexValue(digits) <= 0x8000_0000 then Some(0 - HexValue(digits) as int) else None
    else
      var digits := UnsignedDigits(s);
      if |digits| > 0 && AllHex(digits) && HexValue(digits) < 0x8000_0000 then Some(HexValue(digits)) else None
  }

  /** Parsing what `{:x}` renders gives the number back. */
  lemma ParseHexOf(n: nat, bound: nat)
    requires n < bound
    ensures ParseHexUnsigned(HexOf(n), bound) == Some(n)
  {
    HexOfValue(n);
  }

  /** An empty field, a character that is not a digit (other than one leading
      `+`) or a value that does not fit is rejected. */
  lemma ParseHexRejects(s: seq<char>, bound: nat)
    requires || UnsignedDigits(s) == []
             || (exists i :: 0 <= i < |UnsignedDigits(s)| && !IsHexDigit(UnsignedDigits(s)[i]))
             || (AllHex(UnsignedDigits(s)) && HexValue(UnsignedDigits(s)) >= bound)
    ensures ParseHexUnsigned(s, bound) == None
  {
  }

  /** The text a client sends for a signed thread id: a minus sign and the
      magnitude in hexadecimal for a negative one. */
  function SignedHexOf(n: i32): (r: Bytes)
  {
    if n < 0 then "-" + HexOf(0 - n as int) else HexOf(n)
  }

  lemma ParseSignedHexOf(n: i32)
    ensures ParseHexI32(SignedHexOf(n)) == Some(n)
  {
    var s := SignedHexOf(n);
    if n < 0 {
      var m: nat := 0 - n as int;
      HexOfValue(m);
      assert s[0] == '-' && s[1..] == HexOf(m);
      assert ParseHexI32(s) == Some(0 - m);
    } else {
      HexOfValue(n);
      assert IsHexDigit(s[0]);
      assert UnsignedDigits(s) == s;
    }
  }
}
