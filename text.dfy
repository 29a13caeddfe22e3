/**
 * String helpers with Python's meaning: `str.find`, `str.split` (with and
 * without `maxsplit=1`), `str.join`, `str(int)`, `int(str)` and
 * `posixpath.join`, each with the laws that connect them.
 */
module Text {
  import opened Wrappers

  /** `pat` occurs in `s` starting at index `i`. */
  predicate OccursAt(s: string, pat: string, i: int)
  {
    0 <= i && i + |pat| <= |s| && s[i..i + |pat|] == pat
  }

  /** Python's `pat in s` for strings. */
  predicate Contains(s: string, pat: string)
  {
    exists i :: 0 <= i <= |s| && OccursAt(s, pat, i)
  }

  lemma {:induction false} OccursShift(s: string, pat: string, i: int)
    requires |s| > 0 && 0 <= i
    ensures OccursAt(s, pat, i + 1) <==> OccursAt(s[1..], pat, i)
  {
    if 0 <= i && i + 1 + |pat| <= |s| {
      assert s[1..][i..i + |pat|] == s[i + 1..i + 1 + |pat|];
    }
  }

  lemma {:induction false} OccursAtChar(s: string, c: char, i: int)
    ensures OccursAt(s, [c], i) <==> 0 <= i < |s| && s[i] == c
  {
    if 0 <= i < |s| {
      assert s[i..i + 1] == [s[i]];
    }
  }

  /** The index of the first occurrence of `pat` in `s` (Python's `s.find(pat)`, with -1 as None). */
  function FindFirst(s: string, pat: string): (r: Option<nat>)
    requires |pat| > 0
    ensures r.Some? ==> OccursAt(s, pat, r.value)
    ensures r.Some? ==> forall j :: 0 <= j < r.value ==> !OccursAt(s, pat, j)
    ensures r.None? ==> forall j :: !OccursAt(s, pat, j)
    decreases |s|
  {
    if |s| < |pat| then None
    else if s[..|pat|] == pat then Some(0)
    else
      var rest := FindFirst(s[1..], pat);
      assert !OccursAt(s, pat, 0);
      match rest
      case None =>
        assert forall j :: !OccursAt(s, pat, j) by {
          forall j | 1 <= j ensures !OccursAt(s, pat, j) { OccursShift(s, pat, j - 1); }
        }
        None
      case Some(i) =>
        OccursShift(s, pat, i);
        assert forall j :: 0 <= j < i + 1 ==> !OccursAt(s, pat, j) by {
          forall j | 1 <= j < i + 1 ensures !OccursAt(s, pat, j) { OccursShift(s, pat, j - 1); }
        }
        Some(i + 1)
  }

  /** Python's `s.split(sep)`: the pieces between the non-overlapping occurrences of `sep`, left to right. */
  function Split(s: string, sep: string): (r: seq<string>)
    requires |sep| > 0
    ensures |r| >= 1
    decreases |s|
  {
    match FindFirst(s, sep)
    case None => [s]
    case Some(i) => [s[..i]] + Split(s[i + |sep|..], sep)
  }

  /** Python's `s.split(sep, 1)`: one piece when `sep` does not occur, else the text before and after its first occurrence. */
  function SplitOnce(s: string, sep: string): (r: seq<string>)
    requires |sep| > 0
    ensures |r| == 1 <==> !Contains(s, sep)
    ensures |r| == 1 ==> r[0] == s
    ensures |r| == 2 ==> s == r[0] + sep + r[1] && !Contains(r[0], sep)
    ensures |r| == 1 || |r| == 2
  {
    match FindFirst(s, sep)
    case None => [s]
    case Some(i) =>
      var before, after := s[..i], s[i + |sep|..];
      assert s == before + sep + after by { assert s[i..i + |sep|] == sep; }
      assert !Contains(before, sep) by {
        forall j | OccursAt(before, sep, j) ensures false {
          assert before[j..j + |sep|] == s[j..j + |sep|];
          assert OccursAt(s, sep, j);
        }
      }
      [before, after]
  }

  /** Python's `sep.join(parts)`. */
  function Join(parts: seq<string>, sep: string): string
  {
    if |parts| == 0 then ""
    else if |parts| == 1 then parts[0]
    else parts[0] + sep + Join(parts[1..], sep)
  }

  /** `s` with every occurrence of the character `c` removed. */
  function Without(s: string, c: char): (r: string)
    ensures |r| <= |s|
  {
    if s == [] then []
    else (if s[0] == c then [] else [s[0]]) + Without(s[1..], c)
  }

  /** No `c` is left. */
  lemma {:induction false} WithoutRemoves(s: string, c: char)
    ensures c !in Without(s, c)
    decreases |s|
  {
    if s != [] {
      WithoutRemoves(s[1..], c);
    }
  }

  lemma {:induction false} WithoutConcat(a: string, b: string, c: char)
    ensures Without(a + b, c) == Without(a, c) + Without(b, c)
    decreases |a|
  {
    if a != [] {
      assert (a + b)[1..] == a[1..] + b;
      WithoutConcat(a[1..], b, c);
    } else {
      assert a + b == b;
    }
  }

  lemma {:induction false} WithoutAbsent(s: string, c: char)
    requires c !in s
    ensures Without(s, c) == s
    decreases |s|
  {
    if s != [] {
      WithoutAbsent(s[1..], c);
    }
  }

  /** Removing `c` leaves nothing exactly when every character is `c`. */
  lemma {:induction false} WithoutEmpty(s: string, c: char)
    ensures Without(s, c) == [] <==> forall i :: 0 <= i < |s| ==> s[i] == c
    decreases |s|
  {
    if s != [] {
      WithoutEmpty(s[1..], c);
      assert forall i :: 1 <= i < |s| ==> s[i] == s[1..][i - 1];
    }
  }

  lemma {:induction false} JoinCons(first: string, rest: seq<string>, sep: string)
    requires |rest| >= 1
    ensures Join([first] + rest, sep) == first + sep + Join(rest, sep)
  {
    assert ([first] + rest)[1..] == rest;
  }

  /** Where `sep` first occurs, `split` cuts off the text before it and goes on after it. */
  lemma {:induction false} SplitFound(s: string, sep: string, i: nat)
    requires |sep| > 0 && FindFirst(s, sep) == Some(i)
    ensures i + |sep| <= |s| && s == s[..i] + sep + s[i + |sep|..]
    ensures Split(s, sep) == [s[..i]] + Split(s[i + |sep|..], sep)
  {
    assert s[i..i + |sep|] == sep;
    assert s == s[..i] + s[i..i + |sep|] + s[i + |sep|..];
  }

  /** Splitting and joining with the same separator gives back the text. */
  lemma {:induction false} JoinSplit(s: string, sep: string)
    requires |sep| > 0
    ensures Join(Split(s, sep), sep) == s
    decreases |s|
  {
    var f := FindFirst(s, sep);
    if f.Some? {
      var i := f.value;
      var rest := s[i + |sep|..];
      SplitFound(s, sep, i);
      JoinSplit(rest, sep);
      JoinCons(s[..i], Split(rest, sep), sep);
    }
  }

  /** With a one-character separator that no part contains, split undoes join. */
  lemma {:induction false} SplitJoin(parts: seq<string>, c: char)
    requires |parts| >= 1
    requires forall k :: 0 <= k < |parts| ==> c !in parts[k]
    ensures Split(Join(parts, [c]), [c]) == parts
    decreases |parts|
  {
    var x := parts[0];
    if |parts| == 1 {
      match FindFirst(x, [c])
      case None =>
      case Some(i) => OccursAtChar(x, c, i);
    } else {
      var j := Join(parts[1..], [c]);
      var s := x + [c] + j;
      assert Join(parts, [c]) == s;
      OccursAtChar(s, c, |x|);
      var f := FindFirst(s, [c]);
      assert f.Some?;
      assert f.value == |x| by {
        if f.value < |x| {
          OccursAtChar(s, c, f.value);
        }
      }
      assert s[..|x|] == x;
      assert s[|x| + 1..] == j;
      SplitJoin(parts[1..], c);
    }
  }

  /** Where the character `c` first occurs: nothing before it is `c`, and `split` cuts there. */
  lemma {:induction false} CharFound(s: string, c: char, i: nat)
    requires FindFirst(s, [c]) == Some(i)
    ensures i < |s| && s == s[..i] + [c] + s[i + 1..] && c !in s[..i]
    ensures Split(s, [c]) == [s[..i]] + Split(s[i + 1..], [c])
  {
    SplitFound(s, [c], i);
    forall k | 0 <= k < i ensures s[..i][k] != c { OccursAtChar(s, c, k); }
  }

  lemma {:induction false} CharAbsent(s: string, c: char)
    requires FindFirst(s, [c]).None?
    ensures c !in s
  {
    forall i | 0 <= i < |s| ensures s[i] != c { OccursAtChar(s, c, i); }
  }

  /** Removing `c` from a text whose first `c` follows `before`. */
  lemma {:induction false} WithoutAround(before: string, c: char, rest: string)
    requires c !in before
    ensures Without(before + [c] + rest, c) == before + Without(rest, c)
  {
    var x := before + [c];
    WithoutAbsent(before, c);
    WithoutConcat(x, rest, c);
    WithoutConcat(before, [c], c);
    WithoutOnly(c);
  }

  lemma {:induction false} WithoutOnly(c: char)
    ensures Without([c], c) == []
  {
    assert [c][1..] == [];
  }

  /** Splitting on a character and joining the pieces with "" drops that character. */
  lemma {:induction false} SplitJoinEmpty(s: string, c: char)
    ensures Join(Split(s, [c]), "") == Without(s, c)
    decreases |s|
  {
    var f := FindFirst(s, [c]);
    if f.None? {
      CharAbsent(s, c);
      WithoutAbsent(s, c);
    } else {
      var i := f.value;
      var before, rest := s[..i], s[i + 1..];
      CharFound(s, c, i);
      SplitJoinEmpty(rest, c);
      JoinCons(before, Split(rest, [c]), "");
      WithoutAround(before, c, rest);
    }
  }

  // ----- Decimal integers -----

  predicate IsDigit(ch: char)
  {
    '0' <= ch <= '9'
  }

  predicate AllDigits(s: string)
  {
    forall i :: 0 <= i < |s| ==> IsDigit(s[i])
  }

  function DigitChar(d: nat): (ch: char)
    requires d < 10
    ensures IsDigit(ch)
  {
    (('0' as int) + d) as char
  }

  function DigitValue(ch: char): (d: nat)
    requires IsDigit(ch)
    ensures d < 10 && DigitChar(d) == ch
  {
    (ch as int) - ('0' as int)
  }

  /** Python's `str(n)` for a natural number. */
  function NatToString(n: nat): (r: string)
    ensures |r| >= 1 && AllDigits(r)
    decreases n
  {
    if n < 10 then [DigitChar(n)] else NatToString(n / 10) + [DigitChar(n % 10)]
  }

  /** Python's `str(i)` for any integer. */
  function IntToString(i: int): string
  {
    if i < 0 then "-" + NatToString(-i) else NatToString(i)
  }

  /** The value of a non-empty string of decimal digits. */
  function ParseNat(s: string): nat
    requires |s| >= 1 && AllDigits(s)
    decreases |s|
  {
    if |s| == 1 then DigitValue(s[0])
    else ParseNat(s[..|s| - 1]) * 10 + DigitValue(s[|s| - 1])
  }

  /**
   * Python's `int(s)` restricted to an optional sign followed by ASCII
   * digits; None where `int` raises ValueError.
   */
  function ParseInt(s: string): Option<int>
  {
    if |s| >= 2 && s[0] == '-' && AllDigits(s[1..]) then Some(0 - ParseNat(s[1..]))
    else if |s| >= 2 && s[0] == '+' && AllDigits(s[1..]) then Some(ParseNat(s[1..]))
    else if |s| >= 1 && AllDigits(s) then Some(ParseNat(s))
    else None
  }

  lemma {:induction false} ParseNatToString(n: nat)
    ensures ParseNat(NatToString(n)) == n
    decreases n
  {
    if n >= 10 {
      ParseNatToString(n / 10);
      var s := NatToString(n);
      assert s[..|s| - 1] == NatToString(n / 10);
    }
  }

  lemma {:induction false} ParseIntNegative(t: string)
    requires |t| >= 1 && AllDigits(t)
    ensures ParseInt("-" + t) == Some(0 - ParseNat(t))
  {
    var s := "-" + t;
    assert s[0] == '-' && s[1..] == t;
  }

  lemma {:induction false} ParseIntDigits(t: string)
    requires |t| >= 1 && AllDigits(t)
    ensures ParseInt(t) == Some(ParseNat(t))
  {
    assert IsDigit(t[0]);
  }

  /** `int(str(i)) == i`. */
  lemma {:induction false} ParseIntToString(i: int)
    ensures ParseInt(IntToString(i)) == Some(i)
  {
    if i < 0 {
      ParseNatToString(-i);
      ParseIntNegative(NatToString(-i));
    } else {
      ParseNatToString(i);
      ParseIntDigits(NatToString(i));
    }
  }

  /** `str` is injective on integers. */
  lemma {:induction false} IntToStringInjective(i: int, j: int)
    requires IntToString(i) == IntToString(j)
    ensures i == j
  {
    ParseIntToString(i);
    ParseIntToString(j);
  }

  // ----- Paths -----

  /** Python's `posixpath.join(dir, name)` for two components. */
  function PathJoin(dir: string, name: string): string
  {
    if |name| > 0 && name[0] == '/' then name
    else if dir == "" || dir[|dir| - 1] == '/' then dir + name
    else dir + "/" + name
  }

  /** Under one directory, distinct relative names give distinct paths, and a relative name ends the path. */
  lemma {:induction false} PathJoinRelative(dir: string, a: string, b: string)
    requires |a| > 0 && a[0] != '/' && |b| > 0 && b[0] != '/'
    ensures PathJoin(dir, a) == PathJoin(dir, b) ==> a == b
    ensures PathJoin(dir, a)[|PathJoin(dir, a)| - 1] == a[|a| - 1]
  {
    var p := PathJoin(dir, a)[..|PathJoin(dir, a)| - |a|];
    assert PathJoin(dir, a) == p + a;
    assert PathJoin(dir, b) == p + b;
    if PathJoin(dir, a) == PathJoin(dir, b) {
      assert a == (p + a)[|p|..];
    }
  }

  /** Under a directory that does not end in "/", extending a relative name extends the path. */
  lemma {:induction false} PathJoinSuffix(dir: string, name: string, suffix: string)
    requires |name| > 0 && name[0] != '/' && dir != [] && dir[|dir| - 1] != '/'
    ensures PathJoin(dir, name + suffix) == PathJoin(dir, name) + suffix
  {
    var whole := name + suffix;
    assert whole[0] == name[0];
    assert PathJoin(dir, whole) == dir + "/" + whole;
    assert PathJoin(dir, name) == dir + "/" + name;
    assert dir + "/" + whole == (dir + "/" + name) + suffix;
  }

  /** The decimal form of an integer ends in a digit. */
  lemma {:induction false} IntToStringEndsInDigit(i: int)
    ensures |IntToString(i)| > 0 && IsDigit(IntToString(i)[|IntToString(i)| - 1])
  {
    if i < 0 {
      assert IntToString(i) == "-" + NatToString(-i);
    }
  }
}
