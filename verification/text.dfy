/**
 The string operations of the Rust standard library that the collector relies on:
 `str::split` on one character, `str::trim`, `str::replace` of a character by
 nothing, and the byte-indexed slice `&s[2..]`.
 */
module Text {

  /** Number of occurrences of `c` in `s`. */
  function Count(s: string, c: char): nat
  {
    if |s| == 0 then 0 else (if s[0] == c then 1 else 0) + Count(s[1..], c)
  }

  /** The pieces glued back together with one `sep` between consecutive pieces. */
  function Join(parts: seq<string>, sep: char): string
    requires |parts| > 0
  {
    if |parts| == 1 then parts[0] else parts[0] + [sep] + Join(parts[1..], sep)
  }

  /** `s.split(sep)`: the text between separators, empty pieces included, so
      a string with k separators always yields k + 1 pieces. */
  function Split(s: string, sep: char): (parts: seq<string>)
    ensures |parts| == Count(s, sep) + 1
    ensures forall i :: 0 <= i < |parts| ==> sep !in parts[i]
    ensures Join(parts, sep) == s
  {
    if |s| == 0 then [""]
    else
      var rest := Split(s[1..], sep);
      if s[0] == sep then
        assert ([""] + rest)[1..] == rest;
        [""] + rest
      else
        var parts := [[s[0]] + rest[0]] + rest[1..];
        assert parts[1..] == rest[1..];
        assert |rest| > 1 ==> Join(rest, sep) == rest[0] + [sep] + Join(rest[1..], sep);
        assert s == [s[0]] + s[1..];
        parts
  }

  lemma {:induction false} CountAbsent(s: string, c: char)
    requires c !in s
    ensures Count(s, c) == 0
    decreases |s|
  {
    if |s| > 0 {
      assert s[0] != c;
      assert c !in s[1..] by {
        forall k | 0 <= k < |s[1..]| ensures s[1..][k] != c {
          assert s[1..][k] == s[k + 1];
        }
      }
      CountAbsent(s[1..], c);
    }
  }

  /** A separator-free piece splits to itself. */
  lemma SplitPiece(p: string, sep: char)
    requires sep !in p
    ensures Split(p, sep) == [p]
  {
  }

  /** Splitting after a separator-free piece and one separator yields that piece first. */
  lemma {:induction false} SplitAfterPiece(p: string, sep: char, rest: string)
    requires sep !in p
    ensures Split(p + [sep] + rest, sep) == [p] + Split(rest, sep)
    decreases |p|
  {
    if |p| == 0 {
      assert p + [sep] + rest == [sep] + rest;
      assert ([sep] + rest)[1..] == rest;
    } else {
      var s := p + [sep] + rest;
      assert s[0] == p[0] && p[0] != sep;
      assert s[1..] == p[1..] + [sep] + rest;
      assert sep !in p[1..] by {
        forall k | 0 <= k < |p[1..]| ensures p[1..][k] != sep {
          assert p[1..][k] == p[k + 1];
        }
      }
      SplitAfterPiece(p[1..], sep, rest);
      assert [p[0]] + p[1..] == p;
    }
  }

  /** `Split` inverts `Join` whenever no piece contains the separator. */
  lemma {:induction false} SplitJoin(parts: seq<string>, sep: char)
    requires |parts| > 0
    requires forall i :: 0 <= i < |parts| ==> sep !in parts[i]
    ensures Split(Join(parts, sep), sep) == parts
    decreases |parts|
  {
    if |parts| == 1 {
      SplitPiece(parts[0], sep);
    } else {
      SplitJoin(parts[1..], sep);
      SplitAfterPiece(parts[0], sep, Join(parts[1..], sep));
      assert [parts[0]] + parts[1..] == parts;
    }
  }

  /** `char::is_whitespace`: the Unicode White_Space property. */
  predicate IsWhitespace(c: char)
  {
    || '\U{0009}' <= c <= '\U{000D}'
    || c == ' '
    || c == '\U{0085}'
    || c == '\U{00A0}'
    || c == '\U{1680}'
    || '\U{2000}' <= c <= '\U{200A}'
    || c == '\U{2028}'
    || c == '\U{2029}'
    || c == '\U{202F}'
    || c == '\U{205F}'
    || c == '\U{3000}'
  }

  predicate AllWhitespace(s: string)
  {
    forall k :: 0 <= k < |s| ==> IsWhitespace(s[k])
  }

  /** `s.trim_start()`: the longest suffix that does not start with whitespace. */
  function TrimStart(s: string): (r: string)
    ensures |r| <= |s| && r == s[|s| - |r|..]
    ensures AllWhitespace(s[..|s| - |r|])
    ensures |r| > 0 ==> !IsWhitespace(r[0])
    decreases |s|
  {
    if |s| > 0 && IsWhitespace(s[0]) then TrimStart(s[1..]) else s
  }

  /** `s.trim_end()`: the longest prefix that does not end with whitespace. */
  function TrimEnd(s: string): (r: string)
    ensures |r| <= |s| && r == s[..|r|]
    ensures AllWhitespace(s[|r|..])
    ensures |r| > 0 ==> !IsWhitespace(r[|r| - 1])
    decreases |s|
  {
    if |s| > 0 && IsWhitespace(s[|s| - 1]) then TrimEnd(s[..|s| - 1]) else s
  }

  /** `s.trim()`: leading and trailing whitespace removed. */
  function Trim(s: string): (r: string)
    ensures |r| > 0 ==> !IsWhitespace(r[0]) && !IsWhitespace(r[|r| - 1])
  {
    TrimEnd(TrimStart(s))
  }

  /** Trimming undoes whitespace padding of a text that has none at its ends. */
  lemma {:induction false} TrimPadded(pre: string, x: string, post: string)
    requires AllWhitespace(pre) && AllWhitespace(post)
    requires |x| > 0 ==> !IsWhitespace(x[0]) && !IsWhitespace(x[|x| - 1])
    ensures Trim(pre + x + post) == x
  {
    if |x| == 0 {
      assert pre + x + post == (pre + post) + "";
      assert AllWhitespace(pre + post) by {
        forall k | 0 <= k < |pre + post| ensures IsWhitespace((pre + post)[k]) {
          if k >= |pre| {
            assert (pre + post)[k] == post[k - |pre|];
          }
        }
      }
      TrimStartPadded(pre + post, "");
    } else {
      TrimStartPadded(pre, x + post);
      assert pre + x + post == pre + (x + post);
      TrimEndPadded(x, post);
    }
  }

  lemma {:induction false} TrimStartPadded(pre: string, y: string)
    requires AllWhitespace(pre)
    requires |y| > 0 ==> !IsWhitespace(y[0])
    ensures TrimStart(pre + y) == y
    decreases |pre|
  {
    if |pre| > 0 {
      assert (pre + y)[1..] == pre[1..] + y;
      TrimStartPadded(pre[1..], y);
    } else {
      assert pre + y == y;
    }
  }

  lemma {:induction false} TrimEndPadded(y: string, post: string)
    requires AllWhitespace(post)
    requires |y| > 0 ==> !IsWhitespace(y[|y| - 1])
    ensures TrimEnd(y + post) == y
    decreases |post|
  {
    if |post| > 0 {
      var s := y + post;
      assert s[|s| - 1] == post[|post| - 1];
      assert s[..|s| - 1] == y + post[..|post| - 1];
      TrimEndPadded(y, post[..|post| - 1]);
    } else {
      assert y + post == y;
    }
  }

  /** `s.replace(c, "")`: every occurrence of `c` dropped, the rest kept in order. */
  function RemoveAll(s: string, c: char): (r: string)
    ensures c !in r
    ensures multiset(r) == multiset(s)[c := 0]
    decreases |s|
  {
    if |s| == 0 then ""
    else
      var rest := RemoveAll(s[1..], c);
      assert s == [s[0]] + s[1..];
      if s[0] == c then rest else [s[0]] + rest
  }

  lemma {:induction false} RemoveAllConcat(a: string, b: string, c: char)
    ensures RemoveAll(a + b, c) == RemoveAll(a, c) + RemoveAll(b, c)
    decreases |a|
  {
    if |a| > 0 {
      assert (a + b)[1..] == a[1..] + b;
      RemoveAllConcat(a[1..], b, c);
    } else {
      assert a + b == b;
    }
  }

  lemma {:induction false} RemoveAllAbsent(s: string, c: char)
    requires c !in s
    ensures RemoveAll(s, c) == s
    decreases |s|
  {
    if |s| > 0 {
      assert c !in s[1..] by {
        forall k | 0 <= k < |s[1..]| ensures s[1..][k] != c {
          assert s[1..][k] == s[k + 1];
        }
      }
      RemoveAllAbsent(s[1..], c);
      assert [s[0]] + s[1..] == s;
    }
  }

  /** Number of bytes of `c` in UTF-8. */
  function Utf8Width(c: char): nat
  {
    if c as int < 0x80 then 1
    else if c as int < 0x800 then 2
    else if c as int < 0x1_0000 then 3
    else 4
  }

  /** Number of bytes of `s` in UTF-8. */
  function Utf8Length(s: string): nat
  {
    if |s| == 0 then 0 else Utf8Width(s[0]) + Utf8Length(s[1..])
  }

  /** Byte offset `b` falls between two characters of `s` (or at its end). */
  ghost predicate IsCharBoundary(s: string, b: nat)
  {
    exists i :: 0 <= i <= |s| && Utf8Length(s[..i]) == b
  }

  /** `&s[2..]` is defined: byte 2 is a character boundary, so the slice does not panic. */
  predicate CanDropTwoBytes(s: string)
  {
    || (|s| >= 2 && Utf8Width(s[0]) == 1 && Utf8Width(s[1]) == 1)
    || (|s| >= 1 && Utf8Width(s[0]) == 2)
  }

  /** `&s[2..]`: the text after its first two UTF-8 bytes. */
  function DropTwoBytes(s: string): (r: string)
    requires CanDropTwoBytes(s)
    ensures |r| < |s| && r == s[|s| - |r|..]
    ensures Utf8Length(s[..|s| - |r|]) == 2
  {
    if Utf8Width(s[0]) == 2 then
      assert Utf8Length(s[..1]) == Utf8Width(s[0]) + Utf8Length(s[..1][1..]);
      s[1..]
    else
      assert Utf8Length(s[..2]) == Utf8Width(s[0]) + Utf8Length(s[..2][1..]);
      assert Utf8Length(s[..2][1..]) == Utf8Width(s[1]) + Utf8Length(s[..2][2..]);
      s[2..]
  }

  lemma {:induction false} Utf8LengthAtLeast(s: string)
    ensures Utf8Length(s) >= |s|
    decreases |s|
  {
    if |s| > 0 {
      Utf8LengthAtLeast(s[1..]);
    }
  }

  /** The slice guard is exactly Rust's char-boundary condition for byte offset 2. */
  lemma {:induction false} CanDropTwoBytesIffBoundary(s: string)
    ensures CanDropTwoBytes(s) <==> IsCharBoundary(s, 2)
  {
    if CanDropTwoBytes(s) {
      var r := DropTwoBytes(s);
      assert Utf8Length(s[..|s| - |r|]) == 2;
    }
    if IsCharBoundary(s, 2) {
      var i :| 0 <= i <= |s| && Utf8Length(s[..i]) == 2;
      Utf8LengthAtLeast(s[..i]);
      assert i == 1 || i == 2;
      assert Utf8Length(s[..i]) == Utf8Width(s[0]) + Utf8Length(s[..i][1..]);
      if i == 2 {
        assert s[..i][1..] == [s[1]];
        assert Utf8Length([s[1]]) == Utf8Width(s[1]) + Utf8Length([s[1]][1..]);
        assert Utf8Width(s[0]) >= 1 && Utf8Width(s[1]) >= 1;
      }
    }
  }
}
