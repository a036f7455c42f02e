/** The few Python `str` operations the generator relies on, written out
    so that their edge cases (several trailing newlines, empty pieces of a
    split, Unicode whitespace) are part of the model. */
module PyStr {

  /** `s.startswith(prefix)` */
  predicate StartsWith(s: string, prefix: string)
  {
    |prefix| <= |s| && s[..|prefix|] == prefix
  }

  /** A string starts with `prefix` exactly when it is `prefix` followed by
      some rest. */
  lemma StartsWithIff(s: string, prefix: string)
    ensures StartsWith(s, prefix) <==> exists rest :: s == prefix + rest
  {
    if StartsWith(s, prefix) {
      assert s == prefix + s[|prefix|..];
    }
    if exists rest :: s == prefix + rest {
      var rest :| s == prefix + rest;
      assert s[..|prefix|] == prefix;
    }
  }

  /** Number of occurrences of `c` in `s` (`s.count(c)`). */
  function CountChar(s: string, c: char): (n: nat)
    ensures n <= |s|
    ensures n == 0 <==> c !in s
  {
    if s == [] then 0 else (if s[0] == c then 1 else 0) + CountChar(s[1..], c)
  }

  lemma {:induction false} CountCharAppend(a: string, b: string, c: char)
    ensures CountChar(a + b, c) == CountChar(a, c) + CountChar(b, c)
  {
    if a == [] {
      assert a + b == b;
    } else {
      assert (a + b)[1..] == a[1..] + b;
      CountCharAppend(a[1..], b, c);
    }
  }

  /** `s.index(c)`: the first position of `c`. */
  function IndexOf(s: string, c: char): (i: nat)
    requires c in s
    ensures i < |s| && s[i] == c
    ensures c !in s[..i]
  {
    if s[0] == c then 0
    else
      var j := IndexOf(s[1..], c);
      assert s[..j + 1] == [s[0]] + s[1..][..j];
      j + 1
  }

  /** The first occurrence is the position that holds `c` with no `c` before it. */
  lemma IndexOfAt(s: string, c: char, i: nat)
    requires i < |s| && s[i] == c && c !in s[..i]
    ensures IndexOf(s, c) == i
  {
  }

  /** `s.rfind(c)`: the last position of `c`, or -1. */
  function LastIndexOf(s: string, c: char): (i: int)
    ensures -1 <= i < |s|
    ensures i >= 0 ==> s[i] == c
    ensures forall k :: i < k < |s| ==> s[k] != c
  {
    if s == [] then -1
    else if s[|s| - 1] == c then |s| - 1
    else LastIndexOf(s[..|s| - 1], c)
  }

  /** `s.split(sep)` for a one-character separator: the maximal pieces
      between separators, empty pieces included. */
  function Split(s: string, sep: char): (parts: seq<string>)
    ensures |parts| == CountChar(s, sep) + 1
    ensures forall k :: 0 <= k < |parts| ==> sep !in parts[k]
  {
    if s == [] then [""]
    else
      var rest := Split(s[1..], sep);
      if s[0] == sep then [""] + rest
      else [[s[0]] + rest[0]] + rest[1..]
  }

  /** `sep.join(parts)` */
  function JoinWith(parts: seq<string>, sep: char): string
    requires |parts| >= 1
  {
    if |parts| == 1 then parts[0] else parts[0] + [sep] + JoinWith(parts[1..], sep)
  }

  /** Splitting and joining again on the same separator gives back the input. */
  lemma {:induction false} SplitJoin(s: string, sep: char)
    ensures JoinWith(Split(s, sep), sep) == s
  {
    if s != [] {
      var rest := Split(s[1..], sep);
      SplitJoin(s[1..], sep);
      if s[0] != sep {
        if |rest| == 1 {
          assert Split(s, sep) == [[s[0]] + rest[0]];
        } else {
          assert Split(s, sep)[1..] == rest[1..];
          assert JoinWith(rest, sep) == rest[0] + [sep] + JoinWith(rest[1..], sep);
        }
      }
    }
  }

  /** Without a separator, `split` yields the whole string. */
  lemma {:induction false} SplitNoSeparator(s: string, sep: char)
    requires sep !in s
    ensures Split(s, sep) == [s]
  {
    if s != [] {
      SplitNoSeparator(s[1..], sep);
      assert [s[0]] + s[1..] == s;
    }
  }

  /** With exactly one separator, `split` yields the text before it and the
      text after it. */
  lemma {:induction false} SplitAtOnlySeparator(s: string, sep: char)
    requires CountChar(s, sep) == 1
    ensures sep in s
    ensures Split(s, sep) == [s[..IndexOf(s, sep)], s[IndexOf(s, sep) + 1..]]
  {
    assert sep in s;
    if s[0] == sep {
      assert CountChar(s[1..], sep) == 0;
      SplitNoSeparator(s[1..], sep);
      assert s[1..] == s[IndexOf(s, sep) + 1..];
    } else {
      SplitAtOnlySeparator(s[1..], sep);
      var i := IndexOf(s[1..], sep);
      assert IndexOf(s, sep) == i + 1;
      assert [s[0]] + s[1..][..i] == s[..i + 1];
      assert s[1..][i + 1..] == s[i + 2..];
    }
  }

  /** Python's `str.isspace` for one character: the ASCII blanks, the
      separator controls 0x1C-0x1F, NEL, NO-BREAK SPACE and the Unicode
      space separators. `str.strip()` with no argument removes these. */
  predicate IsSpace(c: char) {
    var n := c as int;
    (9 <= n <= 13) || (0x1C <= n <= 0x20) || n == 0x85 || n == 0xA0 || n == 0x1680
    || (0x2000 <= n <= 0x200A) || n == 0x2028 || n == 0x2029 || n == 0x202F
    || n == 0x205F || n == 0x3000
  }

  predicate IsNewline(c: char) {
    c == '\n'
  }

  /** Removes every leading character for which `drop` holds. */
  function TrimStart(s: string, drop: char -> bool): (r: string)
    ensures |r| <= |s| && r == s[|s| - |r|..]
    ensures r == [] || !drop(r[0])
    ensures forall k :: 0 <= k < |s| - |r| ==> drop(s[k])
  {
    if s != [] && drop(s[0]) then TrimStart(s[1..], drop) else s
  }

  /** Removes every trailing character for which `drop` holds. */
  function TrimEnd(s: string, drop: char -> bool): (r: string)
    ensures |r| <= |s| && r == s[..|r|]
    ensures r == [] || !drop(r[|r| - 1])
    ensures forall k :: |r| <= k < |s| ==> drop(s[k])
  {
    if s != [] && drop(s[|s| - 1]) then TrimEnd(s[..|s| - 1], drop) else s
  }

  /** `s.rstrip("\n")`: ALL trailing newlines go, not just one. */
  function RStripNewlines(s: string): (r: string)
    ensures |r| <= |s| && r == s[..|r|]
    ensures r == [] || r[|r| - 1] != '\n'
    ensures forall k :: |r| <= k < |s| ==> s[k] == '\n'
  {
    TrimEnd(s, IsNewline)
  }

  /** `s.strip()`: the middle of `s` once the whitespace on both ends is
      gone; StripSurrounded says which middle. */
  function Strip(s: string): (r: string)
    ensures |r| <= |s|
    ensures r == [] || (!IsSpace(r[0]) && !IsSpace(r[|r| - 1]))
  {
    TrimEnd(TrimStart(s, IsSpace), IsSpace)
  }

  lemma {:induction false} TrimStartPrefix(left: string, rest: string, drop: char -> bool)
    requires forall k :: 0 <= k < |left| ==> drop(left[k])
    requires rest == [] || !drop(rest[0])
    ensures TrimStart(left + rest, drop) == rest
  {
    if left == [] {
      assert left + rest == rest;
    } else {
      assert (left + rest)[1..] == left[1..] + rest;
      TrimStartPrefix(left[1..], rest, drop);
    }
  }

  lemma {:induction false} TrimEndSuffix(rest: string, right: string, drop: char -> bool)
    requires forall k :: 0 <= k < |right| ==> drop(right[k])
    requires rest == [] || !drop(rest[|rest| - 1])
    ensures TrimEnd(rest + right, drop) == rest
  {
    if right == [] {
      assert rest + right == rest;
    } else {
      var s := rest + right;
      assert s[..|s| - 1] == rest + right[..|right| - 1];
      TrimEndSuffix(rest, right[..|right| - 1], drop);
    }
  }

  /** Whitespace on either side of a string without surrounding whitespace
      is exactly what `strip` removes. */
  lemma StripSurrounded(left: string, middle: string, right: string)
    requires forall k :: 0 <= k < |left| ==> IsSpace(left[k])
    requires forall k :: 0 <= k < |right| ==> IsSpace(right[k])
    requires middle == [] || (!IsSpace(middle[0]) && !IsSpace(middle[|middle| - 1]))
    ensures Strip(left + middle + right) == middle
  {
    if middle == [] {
      assert left + middle + right == left + right;
      TrimStartPrefix(left + right, [], IsSpace);
      assert left + right + [] == left + right;
    } else {
      assert left + middle + right == left + (middle + right);
      TrimStartPrefix(left, middle + right, IsSpace);
      TrimEndSuffix(middle, right, IsSpace);
    }
  }

  /** Stripping a string that already has no surrounding whitespace
      changes nothing; so `strip` is idempotent. */
  lemma StripTrimmed(s: string)
    requires s == [] || (!IsSpace(s[0]) && !IsSpace(s[|s| - 1]))
    ensures Strip(s) == s
  {
    StripSurrounded("", s, "");
    assert "" + s + "" == s;
  }

  /** `"".join(lines)` */
  function Concat(lines: seq<string>): string {
    if lines == [] then "" else lines[0] + Concat(lines[1..])
  }

  lemma {:induction false} ConcatAppend(a: seq<string>, b: seq<string>)
    ensures Concat(a + b) == Concat(a) + Concat(b)
  {
    if a == [] {
      assert a + b == b;
    } else {
      assert (a + b)[0] == a[0];
      assert (a + b)[1..] == a[1..] + b;
      ConcatAppend(a[1..], b);
    }
  }
}
