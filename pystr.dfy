/**
 Python's built-in string operations that the generator relies on, stated
 over `string` (a sequence of code points): `str.strip()`, `str.split(sep)`,
 `sep.join(pieces)` and `str(n)` for a non-negative integer.
 */
module PyStr {
  import opened Wrappers

  // ---------------------------------------------------------------------
  // Whitespace and str.strip()
  // ---------------------------------------------------------------------

  /** The characters Python's `str.isspace` accepts, which `str.strip()`
      with no argument removes: the ASCII controls TAB..CR and FS..US, the
      space, and the Unicode separators and spaces. */
  predicate IsSpace(c: char)
  {
    || ('\t' <= c <= '\r')
    || ('\U{1C}' <= c <= ' ')
    || c == '\U{85}' || c == '\U{A0}' || c == '\U{1680}'
    || ('\U{2000}' <= c <= '\U{200A}')
    || c == '\U{2028}' || c == '\U{2029}' || c == '\U{202F}'
    || c == '\U{205F}' || c == '\U{3000}'
  }

  predicate AllSpace(s: string)
  {
    forall i :: 0 <= i < |s| ==> IsSpace(s[i])
  }

  /** `s.lstrip()`: drops the longest all-whitespace prefix. */
  function TrimLeft(s: string): (r: string)
    ensures |r| <= |s|
  {
    if s != [] && IsSpace(s[0]) then TrimLeft(s[1..]) else s
  }

  lemma {:induction false} TrimLeftSpec(s: string)
    ensures var r := TrimLeft(s);
      && r == s[|s| - |r|..] && AllSpace(s[..|s| - |r|])
      && (r == [] || !IsSpace(r[0]))
  {
    if s != [] && IsSpace(s[0]) {
      TrimLeftSpec(s[1..]);
      var r := TrimLeft(s);
      assert s[..|s| - |r|] == [s[0]] + s[1..][..|s| - 1 - |r|];
    }
  }

  /** `s.rstrip()`: drops the longest all-whitespace suffix. */
  function TrimRight(s: string): (r: string)
    ensures |r| <= |s|
  {
    if s != [] && IsSpace(s[|s| - 1]) then TrimRight(s[..|s| - 1]) else s
  }

  lemma {:induction false} TrimRightSpec(s: string)
    ensures var r := TrimRight(s);
      && r == s[..|r|] && AllSpace(s[|r|..])
      && (r == [] || !IsSpace(r[|r| - 1]))
  {
    if s != [] && IsSpace(s[|s| - 1]) {
      var t := s[..|s| - 1];
      TrimRightSpec(t);
      var r := TrimRight(s);
      assert s[|r|..] == t[|r|..] + [s[|s| - 1]];
    }
  }

  /** `s.strip()`. */
  function Strip(s: string): (r: string)
    ensures |r| <= |s|
  {
    TrimRight(TrimLeft(s))
  }

  /** `s.strip()` is a slice of `s` with only whitespace cut off on either
      side, no whitespace left at either end, and it is empty exactly when
      `s` is all whitespace. */
  lemma StripSpec(s: string)
    ensures var r, i := Strip(s), |s| - |TrimLeft(s)|;
      && i + |r| <= |s| && s[i..i + |r|] == r && AllSpace(s[..i]) && AllSpace(s[i + |r|..])
      && (r == [] || (!IsSpace(r[0]) && !IsSpace(r[|r| - 1])))
      && (r == [] <==> AllSpace(s))
  {
    var l := TrimLeft(s);
    var r := TrimRight(l);
    TrimLeftSpec(s);
    TrimRightSpec(l);
    var i := |s| - |l|;
    assert l == s[i..];
    assert AllSpace(s[..i]);
    assert s[i..i + |r|] == r;
    assert s[i + |r|..] == l[|r|..];
    assert AllSpace(s[i + |r|..]);
    if r == [] {
      AllSpaceAppend(s[..i], l);
      assert s == s[..i] + l;
    } else {
      assert r[0] == l[0] && !IsSpace(r[0]);
      assert s[i] == r[0];
    }
  }

  /** A concatenation is all whitespace exactly when both parts are. */
  lemma AllSpaceAppend(a: string, b: string)
    ensures AllSpace(a + b) <==> AllSpace(a) && AllSpace(b)
  {
    if AllSpace(a + b) {
      forall j | 0 <= j < |a| ensures IsSpace(a[j]) {
        assert (a + b)[j] == a[j];
      }
      forall j | 0 <= j < |b| ensures IsSpace(b[j]) {
        assert (a + b)[|a| + j] == b[j];
      }
    }
  }

  lemma {:induction false} TrimLeftOfSpaces(pre: string, t: string)
    requires AllSpace(pre)
    requires t == [] || !IsSpace(t[0])
    ensures TrimLeft(pre + t) == t
    decreases |pre|
  {
    if pre != [] {
      assert (pre + t)[1..] == pre[1..] + t;
      TrimLeftOfSpaces(pre[1..], t);
    } else {
      assert pre + t == t;
    }
  }

  lemma {:induction false} TrimRightOfSpaces(t: string, post: string)
    requires AllSpace(post)
    requires t == [] || !IsSpace(t[|t| - 1])
    ensures TrimRight(t + post) == t
    decreases |post|
  {
    if post != [] {
      var p := post[..|post| - 1];
      assert (t + post)[..|t + post| - 1] == t + p;
      TrimRightOfSpaces(t, p);
    } else {
      assert t + post == t;
    }
  }

  /** `Strip` is the only way to cut whitespace off both ends of a string
      that leaves no whitespace at either end: any such decomposition of `s`
      has `Strip(s)` as its middle. */
  lemma StripUnique(s: string, pre: string, mid: string, post: string)
    requires s == pre + mid + post
    requires AllSpace(pre) && AllSpace(post)
    requires mid == [] || (!IsSpace(mid[0]) && !IsSpace(mid[|mid| - 1]))
    ensures Strip(s) == mid
  {
    if mid == [] {
      StripSpec(s);
      assert AllSpace(s) by {
        forall i | 0 <= i < |s| ensures IsSpace(s[i]) {
          if i < |pre| { assert s[i] == pre[i]; } else { assert s[i] == post[i - |pre|]; }
        }
      }
    } else {
      assert s == pre + (mid + post);
      TrimLeftOfSpaces(pre, mid + post);
      TrimRightOfSpaces(mid, post);
    }
  }

  // ---------------------------------------------------------------------
  // Occurrences of a separator
  // ---------------------------------------------------------------------

  /** `sep` occurs in `s` starting at index `k`. */
  predicate OccursAt(s: string, sep: string, k: int)
  {
    0 <= k && k + |sep| <= |s| && s[k..k + |sep|] == sep
  }

  /** Python's `sep in s`. */
  predicate Contains(s: string, sep: string)
  {
    exists k | 0 <= k <= |s| - |sep| :: OccursAt(s, sep, k)
  }

  /** `s.find(sep)`: the first index at which `sep` occurs, if any. */
  function Find(s: string, sep: string): (r: Option<nat>)
    requires |sep| > 0
    ensures r.Some? ==> OccursAt(s, sep, r.value)
    ensures r.Some? ==> forall k :: 0 <= k < r.value ==> !OccursAt(s, sep, k)
    ensures r.None? <==> !Contains(s, sep)
    decreases |s|
  {
    if |s| < |sep| then None
    else if s[..|sep|] == sep then assert OccursAt(s, sep, 0); Some(0)
    else
      ShiftOccurrences(s, sep);
      match Find(s[1..], sep)
      case None => None
      case Some(k) =>
        assert OccursAt(s, sep, k + 1);
        Some(k + 1)
  }

  /** Past the first character, `sep` occurs in `s` where it occurs in
      `s[1..]`, one position further on. */
  lemma ShiftOccurrences(s: string, sep: string)
    requires |s| > 0
    ensures forall k :: 1 <= k ==> (OccursAt(s, sep, k) <==> OccursAt(s[1..], sep, k - 1))
  {
    forall k | 1 <= k ensures OccursAt(s, sep, k) <==> OccursAt(s[1..], sep, k - 1) {
      if k + |sep| <= |s| {
        assert s[1..][k - 1..k - 1 + |sep|] == s[k..k + |sep|];
      }
    }
  }

  /** A separator that cannot overlap a copy of itself: no proper suffix of
      it is also a prefix of it. */
  predicate SelfDisjoint(sep: string)
  {
    forall k :: 0 < k < |sep| ==> sep[k..] != sep[..|sep| - k]
  }

  /** Two overlapping occurrences of `sep` make a proper suffix of `sep`
      equal to a prefix of it. */
  lemma OverlappingOccurrences(s: string, sep: string, i: int, j: int)
    requires OccursAt(s, sep, i) && OccursAt(s, sep, j) && i < j < i + |sep|
    ensures sep[j - i..] == sep[..|sep| - (j - i)]
  {
    var k := j - i;
    forall t | 0 <= t < |sep| - k ensures sep[k..][t] == sep[..|sep| - k][t] {
      assert s[i..i + |sep|][k + t] == s[j + t] == s[j..j + |sep|][t];
    }
  }

  /** In `x + sep + y`, when `x` holds no `sep` and `sep` cannot overlap
      itself, the first `sep` is the one right after `x`. */
  lemma FindAfter(x: string, sep: string, y: string)
    requires |sep| > 0 && SelfDisjoint(sep) && !Contains(x, sep)
    ensures Find(x + sep + y, sep) == Some(|x|)
  {
    var s := x + sep + y;
    assert s[|x|..|x| + |sep|] == sep;
    forall j | 0 <= j < |x| ensures !OccursAt(s, sep, j) {
      if OccursAt(s, sep, j) {
        if j + |sep| <= |x| {
          assert x[j..j + |sep|] == s[j..j + |sep|];
          assert OccursAt(x, sep, j);
        } else {
          // the occurrence at j would overlap the one at |x|
          OverlappingOccurrences(s, sep, j, |x|);
          assert false;
        }
      }
    }
    assert OccursAt(s, sep, |x|);
  }

  // ---------------------------------------------------------------------
  // str.split(sep) and sep.join(pieces)
  // ---------------------------------------------------------------------

  /** `sep.join(pieces)`. */
  function Join(pieces: seq<string>, sep: string): string
  {
    if pieces == [] then []
    else if |pieces| == 1 then pieces[0]
    else pieces[0] + sep + Join(pieces[1..], sep)
  }

  /** `s.split(sep)` for a non-empty `sep`: cuts `s` at every occurrence of
      `sep`, taken left to right without overlap. */
  function Split(s: string, sep: string): (r: seq<string>)
    requires |sep| > 0
    ensures |r| >= 1
    ensures Find(s, sep).None? ==> r == [s]
    ensures Find(s, sep).Some? ==> |r| >= 2
    decreases |s|
  {
    match Find(s, sep)
    case None => [s]
    case Some(k) => [s[..k]] + Split(s[k + |sep|..], sep)
  }

  /** Joining the pieces of `s.split(sep)` with `sep` gives back `s`. */
  lemma {:induction false} SplitJoin(s: string, sep: string)
    requires |sep| > 0
    ensures Join(Split(s, sep), sep) == s
    decreases |s|
  {
    match Find(s, sep)
    case None =>
    case Some(k) =>
      SplitJoin(s[k + |sep|..], sep);
      assert s == s[..k] + sep + s[k + |sep|..];
  }

  /** Joining two pieces puts one separator between them. */
  lemma JoinTwo(x: string, y: string, sep: string)
    ensures Join([x, y], sep) == x + sep + y
  {
    assert [x, y][1..] == [y];
  }

  /** When `sep` ends in whitespace, so does `x + sep + y` for a blank `y`. */
  lemma BlankTail(x: string, sep: string, y: string)
    requires |sep| > 0 && IsSpace(sep[|sep| - 1]) && AllSpace(y)
    ensures var t := x + sep + y; |t| > 0 && IsSpace(t[|t| - 1])
  {
    var t := x + sep + y;
    if y == [] {
      assert t[|t| - 1] == sep[|sep| - 1];
    } else {
      assert t[|t| - 1] == y[|y| - 1];
    }
  }

  /** Stripping `s` first means that, when `sep` ends in whitespace, a
      two-piece split of the result never has a blank second piece. */
  lemma StrippedSecondPiece(s: string, sep: string)
    requires |sep| > 0 && IsSpace(sep[|sep| - 1])
    requires |Split(Strip(s), sep)| == 2
    ensures !AllSpace(Split(Strip(s), sep)[1])
  {
    StripSpec(s);
    SecondPieceOfTrimmed(Strip(s), sep);
  }

  /** A two-piece split of a string that does not end in whitespace, on a
      separator that does, has a second piece that is not all whitespace. */
  lemma SecondPieceOfTrimmed(t: string, sep: string)
    requires |sep| > 0 && IsSpace(sep[|sep| - 1])
    requires t == [] || !IsSpace(t[|t| - 1])
    requires |Split(t, sep)| == 2
    ensures !AllSpace(Split(t, sep)[1])
  {
    var parts := Split(t, sep);
    var x, y := parts[0], parts[1];
    assert parts == [x, y];
    SplitJoin(t, sep);
    JoinTwo(x, y, sep);
    assert t == x + sep + y;
    if AllSpace(y) {
      BlankTail(x, sep, y);
      assert false;
    }
  }

  /** No piece of `s.split(sep)` contains `sep`. */
  lemma {:induction false} SplitPieceFree(s: string, sep: string, i: nat)
    requires |sep| > 0 && i < |Split(s, sep)|
    ensures !Contains(Split(s, sep)[i], sep)
    decreases |s|
  {
    match Find(s, sep)
    case None =>
    case Some(k) =>
      var head, tail := s[..k], s[k + |sep|..];
      assert Split(s, sep) == [head] + Split(tail, sep);
      if i == 0 {
        forall j | 0 <= j && j + |sep| <= |head| ensures !OccursAt(head, sep, j) {
          assert |head| == k && j < k;
          assert s[j..j + |sep|] == head[j..j + |sep|];
          assert !OccursAt(s, sep, j);
        }
      } else {
        SplitPieceFree(tail, sep, i - 1);
      }
  }

  /** Python's `s.count(sep)`: occurrences of `sep` counted by a left-to-right
      scan that skips over each match. */
  function Count(s: string, sep: string): nat
    requires |sep| > 0
    decreases |s|
  {
    if |s| < |sep| then 0
    else if s[..|sep|] == sep then 1 + Count(s[|sep|..], sep)
    else Count(s[1..], sep)
  }

  lemma {:induction false} CountSkipsNonMatches(s: string, sep: string, k: nat)
    requires |sep| > 0 && k <= |s|
    requires forall j :: 0 <= j < k ==> !OccursAt(s, sep, j)
    ensures Count(s, sep) == Count(s[k..], sep)
    decreases k
  {
    if k > 0 {
      assert !OccursAt(s, sep, 0);
      assert |s| >= |sep| ==> s[..|sep|] != sep;
      forall j | 0 <= j < k - 1 ensures !OccursAt(s[1..], sep, j) {
        if OccursAt(s[1..], sep, j) {
          assert s[1..][j..j + |sep|] == s[j + 1..j + 1 + |sep|];
          assert OccursAt(s, sep, j + 1);
        }
      }
      CountSkipsNonMatches(s[1..], sep, k - 1);
      assert s[1..][k - 1..] == s[k..];
    }
  }

  lemma {:induction false} CountWithout(s: string, sep: string)
    requires |sep| > 0 && !Contains(s, sep)
    ensures Count(s, sep) == 0
  {
    CountSkipsNonMatches(s, sep, |s|);
    assert |s[|s|..]| == 0;
  }

  /** `s.split(sep)` yields one piece more than `s.count(sep)`. */
  lemma {:induction false} SplitCount(s: string, sep: string)
    requires |sep| > 0
    ensures |Split(s, sep)| == Count(s, sep) + 1
    decreases |s|
  {
    match Find(s, sep)
    case None =>
      CountWithout(s, sep);
    case Some(k) =>
      var u, rest := s[k..], s[k + |sep|..];
      assert Split(s, sep) == [s[..k]] + Split(rest, sep);
      CountSkipsNonMatches(s, sep, k);
      assert u[..|sep|] == sep;
      assert u[|sep|..] == rest;
      assert Count(u, sep) == 1 + Count(rest, sep);
      SplitCount(rest, sep);
  }

  /** For a separator that cannot overlap itself, splitting into exactly two
      pieces means the string is one separator between two separator-free
      strings, in both directions. */
  lemma SplitInTwo(s: string, sep: string, x: string, y: string)
    requires |sep| > 0 && SelfDisjoint(sep)
    ensures Split(s, sep) == [x, y] <==>
            s == x + sep + y && !Contains(x, sep) && !Contains(y, sep)
  {
    if s == x + sep + y && !Contains(x, sep) && !Contains(y, sep) {
      FindAfter(x, sep, y);
      assert s[..|x|] == x && s[|x| + |sep|..] == y;
      assert Split(s, sep) == [x] + Split(y, sep);
    }
    if Split(s, sep) == [x, y] {
      SplitJoin(s, sep);
      SplitPieceFree(s, sep, 0);
      SplitPieceFree(s, sep, 1);
      assert Join([x, y], sep) == x + sep + Join([y], sep);
    }
  }

  // ---------------------------------------------------------------------
  // str(n) for n >= 0
  // ---------------------------------------------------------------------

  predicate IsDigit(c: char)
  {
    '0' <= c <= '9'
  }

  function DigitChar(d: nat): (c: char)
    requires d < 10
    ensures IsDigit(c) && c as int - '0' as int == d
  {
    ('0' as int + d) as char
  }

  /** `str(n)`: the decimal digits of `n` with no leading zero. */
  function Decimal(n: nat): (r: string)
    ensures |r| >= 1
    ensures forall i :: 0 <= i < |r| ==> IsDigit(r[i])
    ensures r[0] == '0' ==> r == "0"
  {
    if n < 10 then [DigitChar(n)] else Decimal(n / 10) + [DigitChar(n % 10)]
  }

  /** The number a string of decimal digits denotes. */
  function DecimalValue(s: string): nat
    requires forall i :: 0 <= i < |s| ==> IsDigit(s[i])
  {
    if s == [] then 0
    else
      assert IsDigit(s[|s| - 1]);
      10 * DecimalValue(s[..|s| - 1]) + (s[|s| - 1] as int - '0' as int)
  }

  /** Reading back `str(n)` gives `n`. */
  lemma {:induction false} DecimalRoundTrip(n: nat)
    ensures DecimalValue(Decimal(n)) == n
  {
    if n >= 10 {
      DecimalRoundTrip(n / 10);
      assert Decimal(n)[..|Decimal(n)| - 1] == Decimal(n / 10);
    }
  }

  /** Different numbers print differently. */
  lemma DecimalInjective(m: nat, n: nat)
    ensures Decimal(m) == Decimal(n) ==> m == n
  {
    DecimalRoundTrip(m);
    DecimalRoundTrip(n);
  }
}
