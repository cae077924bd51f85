/**
 * `re.findall(r"[0-9]{1,3}\.[0-9]{1,3}\.[0-9]{1,3}\.[0-9]{1,3}", s)` as a
 * left-to-right scanner: at each position try one match, keep it and go on
 * after it, or move on one character.
 */
module DottedQuads {
  import opened Wrappers
  import opened PyText

  /** The length of the run of ASCII digits that starts at `i`. */
  function DigitRun(s: string, i: nat): (n: nat)
    requires i <= |s|
    ensures i + n <= |s|
    ensures i + n < |s| ==> !IsDigit(s[i + n])
    decreases |s| - i
  {
    if i < |s| && IsDigit(s[i]) then 1 + DigitRun(s, i + 1) else 0
  }

  /** Every character of the run is a digit. */
  lemma {:induction false} DigitRunDigits(s: string, i: nat)
    requires i <= |s|
    ensures forall k :: i <= k < i + DigitRun(s, i) ==> IsDigit(s[k])
    decreases |s| - i
  {
    if i < |s| && IsDigit(s[i]) {
      DigitRunDigits(s, i + 1);
    }
  }

  /** A run of exactly `k` digits, ended by a non-digit or the end of `s`. */
  lemma {:induction false} DigitRunExact(s: string, i: nat, k: nat)
    requires i + k <= |s|
    requires forall m :: i <= m < i + k ==> IsDigit(s[m])
    requires i + k < |s| ==> !IsDigit(s[i + k])
    ensures DigitRun(s, i) == k
    decreases k
  {
    if k > 0 {
      DigitRunExact(s, i + 1, k - 1);
    }
  }

  /** A run starting with `k` digits is at least `k` long. */
  lemma {:induction false} DigitRunAtLeast(s: string, i: nat, k: nat)
    requires i + k <= |s|
    requires forall m :: i <= m < i + k ==> IsDigit(s[m])
    ensures DigitRun(s, i) >= k
    decreases k
  {
    if k > 0 {
      DigitRunAtLeast(s, i + 1, k - 1);
    }
  }

  /** `[0-9]{1,3}\.` starting at `i`: the position after the dot. */
  function GroupAndDot(s: string, i: nat): (r: Option<nat>)
    requires i <= |s|
    ensures r.Some? ==> i + 2 <= r.value <= |s|
  {
    var n := DigitRun(s, i);
    if 1 <= n <= 3 && i + n < |s| && s[i + n] == '.' then Some(i + n + 1) else None
  }

  /**
   * The end of the match that starts at `i`, if any. The first three groups
   * cannot backtrack (a dot is no digit); the last one takes up to three
   * digits greedily.
   */
  function MatchAt(s: string, i: nat): (r: Option<nat>)
    requires i <= |s|
    ensures r.Some? ==> i < r.value <= |s|
  {
    var j1 :- GroupAndDot(s, i);
    var j2 :- GroupAndDot(s, j1);
    var j3 :- GroupAndDot(s, j2);
    var n := DigitRun(s, j3);
    if n == 0 then None else Some(j3 + (if n > 3 then 3 else n))
  }

  /** `re.findall` from position `i` on. */
  function FindAllFrom(s: string, i: nat): seq<string>
    requires i <= |s|
    decreases |s| - i
  {
    if i == |s| then []
    else
      match MatchAt(s, i)
      case Some(e) => [s[i..e]] + FindAllFrom(s, e)
      case None => FindAllFrom(s, i + 1)
  }

  /** `Interface.get_all_ip_addresses`: every dotted-quad literal, in order. */
  function AllIpAddresses(s: string): seq<string> {
    FindAllFrom(s, 0)
  }

  // ---------------------------------------------------------------------
  // An independent description of what the pattern matches

  /** Four groups of one to three ASCII digits separated by dots. */
  predicate Shaped(t: string) {
    var parts := Split(t, '.');
    |parts| == 4 && forall k :: 0 <= k < 4 ==> AllDigits(parts[k]) && |parts[k]| <= 3
  }

  /**
   * `s[i..j]` is the first literal of `s`: no literal starts before `i`, and
   * none starting at `i` reaches beyond `j`.
   */
  ghost predicate FirstLiteral(s: string, i: nat, j: nat) {
    i <= j <= |s| && Shaped(s[i..j]) &&
    (forall m, n :: 0 <= m < i && m <= n <= |s| ==> !Shaped(s[m..n])) &&
    (forall n :: j < n <= |s| ==> !Shaped(s[i..n]))
  }

  /** Some slice of `s` is a dotted-quad literal. */
  ghost predicate HasLiteral(s: string) {
    exists i, j :: 0 <= i <= j <= |s| && Shaped(s[i..j])
  }

  lemma DotIsNoDigit()
    ensures !IsDigit('.')
  {
  }

  /** The digits of a group found by GroupAndDot, without its dot. */
  lemma GroupDigits(s: string, i: nat)
    requires i <= |s| && GroupAndDot(s, i).Some?
    ensures var j := GroupAndDot(s, i).value;
      AllDigits(s[i..j - 1]) && |s[i..j - 1]| <= 3 && '.' !in s[i..j - 1] && s[j - 1] == '.'
  {
    DotIsNoDigit();
    DigitRunDigits(s, i);
  }

  /** A slice with a dot at `b - 1` is the part before it, the dot and the part after it. */
  lemma SliceAroundDot(s: string, a: nat, b: nat, c: nat)
    requires a < b <= c <= |s| && s[b - 1] == '.'
    ensures s[a..c] == s[a..b - 1] + ['.'] + s[b..c]
  {
    assert s[a..c] == s[a..b - 1] + [s[b - 1]] + s[b..c];
  }

  /** Four digit groups joined by dots form a dotted-quad literal. */
  lemma GroupsShaped(g0: string, g1: string, g2: string, g3: string)
    requires AllDigits(g0) && |g0| <= 3 && AllDigits(g1) && |g1| <= 3
    requires AllDigits(g2) && |g2| <= 3 && AllDigits(g3) && |g3| <= 3
    ensures Shaped(g0 + ['.'] + (g1 + ['.'] + (g2 + ['.'] + g3)))
  {
    DotIsNoDigit();
    Join4(g0, g1, g2, g3, '.');
    SplitJoin([g0, g1, g2, g3], '.');
  }

  /** The last group of a match: one to three digits. */
  lemma LastGroup(s: string, j: nat)
    requires j <= |s| && DigitRun(s, j) > 0
    ensures var n := DigitRun(s, j);
      var e := j + (if n > 3 then 3 else n);
      AllDigits(s[j..e]) && |s[j..e]| <= 3
  {
    DigitRunDigits(s, j);
  }

  /** The group GroupAndDot finds at `i`, its dot and the rest up to `e`. */
  lemma GroupSplit(s: string, i: nat, e: nat) returns (g: string, j: nat)
    requires i <= e <= |s| && GroupAndDot(s, i).Some? && GroupAndDot(s, i).value <= e
    ensures j == GroupAndDot(s, i).value
    ensures AllDigits(g) && |g| <= 3 && s[i..e] == g + ['.'] + s[j..e]
  {
    GroupDigits(s, i);
    j := GroupAndDot(s, i).value;
    g := s[i..j - 1];
    SliceAroundDot(s, i, j, e);
  }

  /** The three group ends and the last run of a match, one by one. */
  lemma MatchSteps(s: string, i: nat) returns (j1: nat, j2: nat, j3: nat)
    requires i <= |s| && MatchAt(s, i).Some?
    ensures i < j1 <= j2 <= j3 < MatchAt(s, i).value <= |s|
    ensures GroupAndDot(s, i) == Some(j1) && GroupAndDot(s, j1) == Some(j2) && GroupAndDot(s, j2) == Some(j3)
    ensures var n := DigitRun(s, j3);
      n > 0 && MatchAt(s, i).value == j3 + (if n > 3 then 3 else n)
  {
    j1 := GroupAndDot(s, i).value;
    j2 := GroupAndDot(s, j1).value;
    j3 := GroupAndDot(s, j2).value;
  }

  /** A match splits into four digit groups joined by dots. */
  lemma MatchGroups(s: string, i: nat) returns (g0: string, g1: string, g2: string, g3: string)
    requires i <= |s| && MatchAt(s, i).Some?
    ensures AllDigits(g0) && |g0| <= 3 && AllDigits(g1) && |g1| <= 3
    ensures AllDigits(g2) && |g2| <= 3 && AllDigits(g3) && |g3| <= 3
    ensures s[i..MatchAt(s, i).value] == g0 + ['.'] + (g1 + ['.'] + (g2 + ['.'] + g3))
  {
    var e := MatchAt(s, i).value;
    var j1, j2, j3 := MatchSteps(s, i);
    g0, j1 := GroupSplit(s, i, e);
    g1, j2 := GroupSplit(s, j1, e);
    g2, j3 := GroupSplit(s, j2, e);
    LastGroup(s, j3);
    g3 := s[j3..e];
  }

  /** What a match covers is a dotted-quad literal. */
  lemma MatchShaped(s: string, i: nat)
    requires i <= |s| && MatchAt(s, i).Some?
    ensures Shaped(s[i..MatchAt(s, i).value])
  {
    var g0, g1, g2, g3 := MatchGroups(s, i);
    GroupsShaped(g0, g1, g2, g3);
  }

  /** The digits of `g` at `i`, followed by a dot, form a run of exactly `|g|` digits. */
  lemma GroupAt(s: string, i: nat, g: string)
    requires i + |g| < |s| && s[i..i + |g|] == g && s[i + |g|] == '.'
    requires AllDigits(g)
    ensures DigitRun(s, i) == |g|
  {
    DotIsNoDigit();
    forall m | i <= m < i + |g|
      ensures IsDigit(s[m])
    {
      assert s[m] == g[m - i];
    }
    DigitRunExact(s, i, |g|);
  }

  /** A text `x + y` at `i` has `x` at `i` and `y` right after it. */
  lemma PiecesAt(s: string, i: nat, x: string, y: string)
    requires i + |x| + |y| <= |s| && s[i..i + |x| + |y|] == x + y
    ensures s[i..i + |x|] == x
    ensures s[i + |x|..i + |x| + |y|] == y
  {
    assert s[i..i + |x|] == (x + y)[..|x|];
    assert s[i + |x|..i + |x| + |y|] == (x + y)[|x|..];
  }

  /** A group, a dot and the rest from `i` to `e`: a digit run of the group's length, then the dot. */
  lemma GroupThenRest(s: string, i: nat, j: nat, e: nat, g: string, rest: string)
    requires j == i + |g| + 1 && e <= |s| && j + |rest| == e && s[i..e] == g + ['.'] + rest
    requires AllDigits(g) && |g| <= 3
    ensures GroupAndDot(s, i) == Some(j)
    ensures s[j..e] == rest
  {
    PiecesAt(s, i, g + ['.'], rest);
    PiecesAt(s, i, g, ['.']);
    GroupAt(s, i, g);
    DotIsNoDigit();
  }

  /** Three groups, each closed by a dot, then a digit: a match, ending after at most three more digits. */
  lemma MatchFromGroups(s: string, i: nat, j1: nat, j2: nat, j3: nat)
    requires i <= |s| && GroupAndDot(s, i) == Some(j1)
    requires j1 <= |s| && GroupAndDot(s, j1) == Some(j2)
    requires j2 <= |s| && GroupAndDot(s, j2) == Some(j3)
    requires j3 < |s| && IsDigit(s[j3])
    ensures var n := DigitRun(s, j3); MatchAt(s, i) == Some(j3 + (if n > 3 then 3 else n))
  {
  }

  /** A digit group from `j` to `e` starts with a digit. */
  lemma GroupStarts(s: string, j: nat, e: nat, g: string)
    requires j <= e <= |s| && s[j..e] == g && AllDigits(g)
    ensures j < |s| && IsDigit(s[j])
  {
    assert s[j] == g[0];
  }

  /** A last group of at most three digits ends no later than the match's greedy last group. */
  lemma LastGroupLongest(s: string, j: nat, e: nat, g: string)
    requires j <= e <= |s| && s[j..e] == g && AllDigits(g) && |g| <= 3
    ensures var n := DigitRun(s, j); e <= j + (if n > 3 then 3 else n)
  {
    forall m | j <= m < e
      ensures IsDigit(s[m])
    {
      assert s[m] == g[m - j];
    }
    DigitRunAtLeast(s, j, e - j);
  }

  /** Four digit groups joined by dots at `i`: the pattern matches at `i`, at least that far. */
  lemma GroupsMatch(s: string, i: nat, g0: string, g1: string, g2: string, g3: string)
    requires AllDigits(g0) && |g0| <= 3 && AllDigits(g1) && |g1| <= 3
    requires AllDigits(g2) && |g2| <= 3 && AllDigits(g3) && |g3| <= 3
    requires var t := g0 + ['.'] + (g1 + ['.'] + (g2 + ['.'] + g3));
      i + |t| <= |s| && s[i..i + |t|] == t
    ensures MatchAt(s, i).Some?
    ensures i + |g0 + ['.'] + (g1 + ['.'] + (g2 + ['.'] + g3))| <= MatchAt(s, i).value
  {
    var r2 := g2 + ['.'] + g3;
    var r1 := g1 + ['.'] + r2;
    var e := i + |g0 + ['.'] + r1|;
    var j1 := i + |g0| + 1;
    var j2 := j1 + |g1| + 1;
    var j3 := j2 + |g2| + 1;
    GroupThenRest(s, i, j1, e, g0, r1);
    GroupThenRest(s, j1, j2, e, g1, r2);
    GroupThenRest(s, j2, j3, e, g2, g3);
    MatchReaches(s, i, j1, j2, j3, e, g3);
  }

  /** Three groups closed by dots, then a last group up to `e`: a match reaching at least `e`. */
  lemma MatchReaches(s: string, i: nat, j1: nat, j2: nat, j3: nat, e: nat, g3: string)
    requires i <= |s| && GroupAndDot(s, i) == Some(j1)
    requires j1 <= |s| && GroupAndDot(s, j1) == Some(j2)
    requires j2 <= |s| && GroupAndDot(s, j2) == Some(j3)
    requires j3 <= e <= |s| && s[j3..e] == g3 && AllDigits(g3) && |g3| <= 3
    ensures MatchAt(s, i).Some? && e <= MatchAt(s, i).value
  {
    GroupStarts(s, j3, e, g3);
    MatchFromGroups(s, i, j1, j2, j3);
    LastGroupLongest(s, j3, e, g3);
  }

  /**
   * A dotted-quad literal from `i` to `j` means the pattern matches at `i`,
   * and its greedy match reaches at least to `j`.
   */
  lemma ShapedMatches(s: string, i: nat, j: nat)
    requires i <= j <= |s|
    ensures Shaped(s[i..j]) ==> MatchAt(s, i).Some? && j <= MatchAt(s, i).value
  {
    if Shaped(s[i..j]) {
      var t := s[i..j];
      var p := Split(t, '.');
      JoinSplit(t, '.');
      assert p == [p[0], p[1], p[2], p[3]];
      Join4(p[0], p[1], p[2], p[3], '.');
      GroupsMatch(s, i, p[0], p[1], p[2], p[3]);
    }
  }

  /** The match at `i` is the longest literal starting at `i`. */
  lemma MatchLongest(s: string, i: nat)
    requires i <= |s| && MatchAt(s, i).Some?
    ensures Shaped(s[i..MatchAt(s, i).value])
    ensures forall n :: MatchAt(s, i).value < n <= |s| ==> !Shaped(s[i..n])
  {
    MatchShaped(s, i);
    forall n | MatchAt(s, i).value < n <= |s|
      ensures !Shaped(s[i..n])
    {
      ShapedMatches(s, i, n);
    }
  }

  // ---------------------------------------------------------------------
  // What the scan returns

  /** Every literal the scan returns has the dotted-quad shape and occurs in `s`. */
  lemma {:induction false} FindAllSound(s: string, i: nat)
    requires i <= |s|
    ensures forall t :: t in FindAllFrom(s, i) ==> Shaped(t) && Contains(s, t)
    decreases |s| - i
  {
    if i < |s| {
      match MatchAt(s, i)
      case Some(e) =>
        FindAllSound(s, e);
        MatchShaped(s, i);
        ContainsAt(s, s[i..e], i);
      case None =>
        FindAllSound(s, i + 1);
    }
  }

  /** No match at `i`: the scan moves on one character. */
  lemma FindAllSkip(s: string, i: nat)
    requires i < |s| && MatchAt(s, i).None?
    ensures FindAllFrom(s, i) == FindAllFrom(s, i + 1)
  {
  }

  /** A match at `i`: the scan keeps it and goes on after it. */
  lemma FindAllKeep(s: string, i: nat)
    requires i < |s| && MatchAt(s, i).Some?
    ensures FindAllFrom(s, i) == [s[i..MatchAt(s, i).value]] + FindAllFrom(s, MatchAt(s, i).value)
  {
  }

  /** No match can start at the end of the text. */
  lemma NoMatchAtEnd(s: string)
    ensures MatchAt(s, |s|).None?
  {
  }

  /** The scan finds nothing exactly when the pattern matches at no position. */
  lemma {:induction false} FindAllEmpty(s: string, i: nat)
    requires i <= |s|
    ensures FindAllFrom(s, i) == [] <==> forall k :: i <= k <= |s| ==> MatchAt(s, k).None?
    decreases |s| - i
  {
    if i < |s| {
      FindAllEmpty(s, i + 1);
      if MatchAt(s, i).None? {
        FindAllSkip(s, i);
      } else {
        FindAllKeep(s, i);
      }
    } else {
      NoMatchAtEnd(s);
    }
  }

  /** The first literal returned is the match at the leftmost matching position. */
  lemma {:induction false} FindAllFirst(s: string, i: nat, k: nat)
    requires i <= k <= |s| && MatchAt(s, k).Some?
    requires forall m :: i <= m < k ==> MatchAt(s, m).None?
    ensures FindAllFrom(s, i) != [] && FindAllFrom(s, i)[0] == s[k..MatchAt(s, k).value]
    decreases k - i
  {
    NoMatchAtEnd(s);
    if i < k {
      FindAllFirst(s, i + 1, k);
      FindAllSkip(s, i);
    } else {
      FindAllKeep(s, k);
    }
  }

  /** A non-empty scan from `i` has a leftmost matching position. */
  lemma {:induction false} LeftmostMatch(s: string, i: nat) returns (k: nat)
    requires i <= |s| && FindAllFrom(s, i) != []
    ensures i <= k <= |s| && MatchAt(s, k).Some?
    ensures forall m :: i <= m < k ==> MatchAt(s, m).None?
    decreases |s| - i
  {
    if i == |s| {
      assert false;
    } else if MatchAt(s, i).Some? {
      k := i;
    } else {
      FindAllSkip(s, i);
      k := LeftmostMatch(s, i + 1);
      NoMatchBefore(s, i, k);
    }
  }

  /** No match at `i` and none from `i + 1` to `k`: none from `i` to `k`. */
  lemma NoMatchBefore(s: string, i: nat, k: nat)
    requires i < k <= |s| && MatchAt(s, i).None?
    requires forall m :: i + 1 <= m < k ==> MatchAt(s, m).None?
    ensures forall m :: i <= m < k ==> MatchAt(s, m).None?
  {
  }

  /**
   * `get_all_ip_addresses(s)[0]` is the first literal of `s`: the leftmost
   * one, taken as long as it goes (`findall` scans left to right and each
   * `[0-9]{1,3}` is greedy).
   */
  lemma FirstAddress(s: string)
    requires AllIpAddresses(s) != []
    ensures exists i: nat, j: nat :: FirstLiteral(s, i, j) && AllIpAddresses(s)[0] == s[i..j]
  {
    var k := LeftmostMatch(s, 0);
    var e := MatchAt(s, k).value;
    FindAllFirst(s, 0, k);
    MatchLongest(s, k);
    forall m, n | 0 <= m < k && m <= n <= |s|
      ensures !Shaped(s[m..n])
    {
      ShapedMatches(s, m, n);
    }
    assert FirstLiteral(s, k, e);
  }

  /** The first literal is unique. */
  lemma FirstLiteralUnique(s: string, i: nat, j: nat, i': nat, j': nat)
    requires FirstLiteral(s, i, j) && FirstLiteral(s, i', j')
    ensures i == i' && j == j'
  {
  }

  /** The pattern matches somewhere exactly when `s` holds a dotted-quad literal. */
  lemma LiteralIffMatch(s: string)
    ensures HasLiteral(s) <==> exists k :: 0 <= k <= |s| && MatchAt(s, k).Some?
  {
    if HasLiteral(s) {
      var i, j :| 0 <= i <= j <= |s| && Shaped(s[i..j]);
      ShapedMatches(s, i, j);
    }
    if k :| 0 <= k <= |s| && MatchAt(s, k).Some? {
      MatchShaped(s, k);
    }
  }

  /** `get_all_ip_addresses` returns nothing exactly when there is no literal. */
  lemma NoAddressesIffNoLiteral(s: string)
    ensures AllIpAddresses(s) == [] <==> !HasLiteral(s)
  {
    FindAllEmpty(s, 0);
    LiteralIffMatch(s);
  }

  /** A text without a dot holds no literal, so the scan finds nothing. */
  lemma NoDotNoAddress(s: string)
    requires '.' !in s
    ensures AllIpAddresses(s) == []
  {
    forall i, j | 0 <= i <= j <= |s|
      ensures !Shaped(s[i..j])
    {
      SplitNoSeparator(s[i..j], '.');
    }
    NoAddressesIffNoLiteral(s);
  }
}
