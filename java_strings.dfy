/**
 * The few java.lang.String operations and the one java.util.regex notion the
 * peer manager relies on, written out over `seq<char>`.
 */
module JavaStrings {

  /** The characters that Java's `.` refuses when no DOTALL flag is given. */
  predicate IsLineTerminator(c: char) {
    c == '\n' || c == '\r' || c == '\U{85}' || c == '\U{2028}' || c == '\U{2029}'
  }

  predicate NoLineTerminator(s: string) {
    forall i :: 0 <= i < |s| ==> !IsLineTerminator(s[i])
  }

  /** `s.endsWith(suffix)` */
  predicate EndsWith(s: string, suffix: string) {
    |suffix| <= |s| && s[|s| - |suffix|..] == suffix
  }

  /** `t` occurs in `s` starting at index `i`. */
  predicate OccursAt(s: string, t: string, i: int) {
    0 <= i && i + |t| <= |s| && s[i..i + |t|] == t
  }

  /**
   * `s.replace(target, "")`: every occurrence of `target`, found scanning from
   * the left and never overlapping the previous one, is removed.
   */
  function RemoveAll(s: string, target: string): (r: string)
    requires target != []
    ensures |r| <= |s|
    ensures target <= s ==> |r| <= |s| - |target|
    decreases |s|
  {
    if s == [] then []
    else if target <= s then RemoveAll(s[|target|..], target)
    else [s[0]] + RemoveAll(s[1..], target)
  }

  /**
   * `s.replaceFirst(target, "")` for a pattern that only matches itself: the
   * leftmost occurrence is removed (see RemoveFirstAt), and a string without
   * one comes back unchanged.
   */
  function RemoveFirst(s: string, target: string): (r: string)
    requires target != []
    ensures (forall i :: !OccursAt(s, target, i)) ==> r == s
    ensures |r| == |s| || |r| == |s| - |target|
    decreases |s|
  {
    if s == [] then []
    else if target <= s then
      assert OccursAt(s, target, 0) by { assert s[0..|target|] == s[..|target|]; }
      s[|target|..]
    else
      assert forall i :: OccursAt(s[1..], target, i) ==> OccursAt(s, target, i + 1) by {
        forall i | OccursAt(s[1..], target, i) ensures OccursAt(s, target, i + 1) {
          OccursShift(s, target, i);
        }
      }
      [s[0]] + RemoveFirst(s[1..], target)
  }

  /** Occurrences in `s[1..]` are the occurrences in `s` one place further on. */
  lemma OccursShift(s: string, t: string, j: int)
    requires s != [] && 0 <= j
    ensures OccursAt(s[1..], t, j) <==> OccursAt(s, t, j + 1)
  {
    if j + |t| <= |s| - 1 {
      assert s[1..][j..j + |t|] == s[j + 1..j + 1 + |t|];
    }
  }

  /** Without an occurrence at the front, `replaceFirst` keeps the first character. */
  lemma RemoveFirstSkip(s: string, target: string)
    requires target != [] && s != [] && !OccursAt(s, target, 0)
    ensures RemoveFirst(s, target) == [s[0]] + RemoveFirst(s[1..], target)
  {
    assert !(target <= s) by {
      if |target| <= |s| { assert s[0..|target|] == s[..|target|]; }
    }
  }

  /** A leftmost occurrence at `i > 0` in `s` is a leftmost occurrence at `i - 1` in `s[1..]`. */
  lemma FirstOccurrenceShift(s: string, target: string, i: int)
    requires 0 < i && OccursAt(s, target, i)
    requires forall j :: 0 <= j < i ==> !OccursAt(s, target, j)
    ensures OccursAt(s[1..], target, i - 1)
    ensures forall j :: 0 <= j < i - 1 ==> !OccursAt(s[1..], target, j)
  {
    OccursShift(s, target, i - 1);
    forall j | 0 <= j < i - 1 ensures !OccursAt(s[1..], target, j) {
      OccursShift(s, target, j);
    }
  }

  /** The leftmost occurrence, at `i`, is the one `replaceFirst` cuts out. */
  lemma {:induction false} RemoveFirstAt(s: string, target: string, i: int)
    requires target != []
    requires OccursAt(s, target, i)
    requires forall j :: 0 <= j < i ==> !OccursAt(s, target, j)
    ensures RemoveFirst(s, target) == s[..i] + s[i + |target|..]
    decreases i
  {
    if i > 0 {
      var rest := s[1..];
      RemoveFirstSkip(s, target);
      FirstOccurrenceShift(s, target, i);
      RemoveFirstAt(rest, target, i - 1);
      assert s[..i] == [s[0]] + rest[..i - 1];
      assert s[i + |target|..] == rest[i - 1 + |target|..];
    } else {
      assert s[..0] == [];
      assert target <= s;
    }
  }

  /** A string with no occurrence of `target` is left as it is by `replace`. */
  lemma {:induction false} RemoveAllAbsent(s: string, target: string)
    requires target != []
    requires forall i :: !OccursAt(s, target, i)
    ensures RemoveAll(s, target) == s
    decreases |s|
  {
    if s != [] {
      assert !OccursAt(s, target, 0);
      assert !(target <= s);
      forall i ensures !OccursAt(s[1..], target, i) {
        if 0 <= i && i + |target| <= |s| - 1 {
          assert s[1..][i..i + |target|] == s[i + 1..i + 1 + |target|];
          assert !OccursAt(s, target, i + 1);
        }
      }
      RemoveAllAbsent(s[1..], target);
    }
  }

  /**
   * When the first character of `target` appears nowhere else in it, an
   * occurrence of `target` at the very end of `n + target` cannot overlap an
   * earlier one, so `replace` takes off exactly that suffix (provided `n`
   * itself holds no occurrence).
   */
  lemma {:induction false} RemoveAllTrailing(n: string, target: string)
    requires target != []
    requires forall j :: 1 <= j < |target| ==> target[j] != target[0]
    requires forall i :: !OccursAt(n, target, i)
    ensures RemoveAll(n + target, target) == n
    decreases |n|
  {
    var s := n + target;
    if n == [] {
      assert s == target;
      assert s[|target|..] == [];
    } else {
      if |target| <= |n| {
        assert s[..|target|] == n[..|target|];
        assert !OccursAt(n, target, 0);
      } else {
        assert s[|n|] == target[0];
        assert target[|n|] != target[0];
      }
      assert !(target <= s);
      forall i ensures !OccursAt(n[1..], target, i) {
        if 0 <= i && i + |target| <= |n| - 1 {
          assert n[1..][i..i + |target|] == n[i + 1..i + 1 + |target|];
          assert !OccursAt(n, target, i + 1);
        }
      }
      assert s[1..] == n[1..] + target;
      RemoveAllTrailing(n[1..], target);
    }
  }

  /**
   * `a.compareTo(b) < 0`: lexicographic order on characters, a proper prefix
   * coming first. This is the order a TreeMap of strings keeps its keys in.
   */
  predicate Less(a: string, b: string)
    decreases |a|
  {
    if a == [] then b != []
    else if b == [] then false
    else if a[0] == b[0] then Less(a[1..], b[1..])
    else a[0] < b[0]
  }

  lemma {:induction false} LessIrreflexive(a: string)
    ensures !Less(a, a)
    decreases |a|
  {
    if a != [] {
      LessIrreflexive(a[1..]);
    }
  }

  lemma {:induction false} LessTransitive(a: string, b: string, c: string)
    requires Less(a, b) && Less(b, c)
    ensures Less(a, c)
    decreases |a|
  {
    if a != [] && a[0] == b[0] && b[0] == c[0] {
      LessTransitive(a[1..], b[1..], c[1..]);
    }
  }

  lemma {:induction false} LessTotal(a: string, b: string)
    ensures a == b || Less(a, b) || Less(b, a)
    decreases |a|
  {
    if a != [] && b != [] && a[0] == b[0] {
      LessTotal(a[1..], b[1..]);
      if a[1..] == b[1..] {
        assert a == [a[0]] + a[1..] && b == [b[0]] + b[1..];
      }
    }
  }

  lemma {:induction false} LessAsymmetric(a: string, b: string)
    requires Less(a, b)
    ensures !Less(b, a)
    decreases |a|
  {
    if a != [] && a[0] == b[0] {
      LessAsymmetric(a[1..], b[1..]);
    }
  }
}
