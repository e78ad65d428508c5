/**
 * The few operations of Java's `String` that the scanner relies on, on
 * `seq<char>`: `endsWith`, `replace(char, char)`, `replace(CharSequence,
 * CharSequence)` and the lower-casing of a single character.
 */
module JavaStrings {

  /** A Java `String` reference, which may be `null`. */
  datatype NullableString = Null | NonNull(value: string)

  /** The text string concatenation uses for a reference: `null` prints as "null". */
  function Text(s: NullableString): string
  {
    match s
    case Null => "null"
    case NonNull(v) => v
  }

  /** `s.startsWith(t)`: `t` is a prefix of `s`. */
  predicate StartsWith(s: string, t: string)
  {
    |t| <= |s| && s[..|t|] == t
  }

  /** `s.endsWith(t)`: `t` is a suffix of `s` (always true for the empty `t`). */
  predicate EndsWith(s: string, t: string)
    ensures t == [] ==> EndsWith(s, t)
  {
    |t| <= |s| && s[|s| - |t|..] == t
  }

  /** `t` occurs in `s` starting at index `i`. */
  predicate OccursAt(s: string, t: string, i: nat)
  {
    i <= |s| && StartsWith(s[i..], t)
  }

  /**
   * Lower-casing of one character. Only the ASCII letters `A`-`Z` are
   * mapped; every other character is returned unchanged.
   */
  function Lower(c: char): (r: char)
    ensures 'A' <= c <= 'Z' ==> 'a' <= r <= 'z' && r as int - c as int == 32
    ensures !('A' <= c <= 'Z') ==> r == c
  {
    if 'A' <= c <= 'Z' then (c as int + 32) as char else c
  }

  /**
   * `s.replace(c, d)` with two `char` arguments: every occurrence of `c`
   * becomes `d`, everything else stays where it is.
   */
  function ReplaceChar(s: string, c: char, d: char): (r: string)
    ensures |r| == |s|
    ensures forall i :: 0 <= i < |s| ==> r[i] == (if s[i] == c then d else s[i])
    ensures forall x :: x in r ==> x == d || (x in s && x != c)
  {
    if s == [] then []
    else [if s[0] == c then d else s[0]] + ReplaceChar(s[1..], c, d)
  }

  /**
   * `s.replace(target, replacement)` with two `CharSequence` arguments.
   * With a non-empty target the string is scanned from the left; each
   * occurrence found is replaced and scanning resumes after it, so
   * occurrences never overlap. With an empty target the replacement is
   * inserted before every character and once more at the end.
   */
  function ReplaceAll(s: string, target: string, replacement: string): (r: string)
    ensures replacement == [] ==> |r| <= |s|
    ensures target == [] ==> |r| == |s| + (|s| + 1) * |replacement|
    decreases |s|
  {
    if target == [] then
      if s == [] then replacement
      else replacement + [s[0]] + ReplaceAll(s[1..], target, replacement)
    else if s == [] then []
    else if StartsWith(s, target) then replacement + ReplaceAll(s[|target|..], target, replacement)
    else [s[0]] + ReplaceAll(s[1..], target, replacement)
  }

  /** `s.replace(target, "")`: every occurrence found by the scan is dropped. */
  function RemoveAll(s: string, target: string): (r: string)
    ensures |r| <= |s|
    ensures forall c :: c in r ==> c in s
  {
    ReplaceAllCharacters(s, target, "");
    ReplaceAll(s, target, "")
  }

  /**
   * With one-character strings, `replace(CharSequence, CharSequence)`
   * agrees with `replace(char, char)`.
   */
  lemma {:induction false} ReplaceAllSingleChar(s: string, c: char, d: char)
    ensures ReplaceAll(s, [c], [d]) == ReplaceChar(s, c, d)
    decreases |s|
  {
    if s != [] {
      ReplaceAllSingleChar(s[1..], c, d);
      if StartsWith(s, [c]) {
        assert s[0] == c;
      } else {
        assert s[..1] == [s[0]];
      }
    }
  }

  /** Removing the empty string leaves every string as it was. */
  lemma {:induction false} RemoveEmptyIsIdentity(s: string)
    ensures RemoveAll(s, "") == s
    decreases |s|
  {
    if s != [] {
      RemoveEmptyIsIdentity(s[1..]);
      assert s == [s[0]] + s[1..];
    }
  }

  /** A non-empty target that does not occur anywhere is not replaced. */
  lemma {:induction false} ReplaceAbsent(s: string, target: string, replacement: string)
    requires target != []
    requires forall i: nat :: i < |s| ==> !OccursAt(s, target, i)
    ensures ReplaceAll(s, target, replacement) == s
    decreases |s|
  {
    if s != [] {
      assert !OccursAt(s, target, 0);
      assert s[0..] == s;
      forall i: nat | i < |s[1..]|
        ensures !OccursAt(s[1..], target, i)
      {
        assert !OccursAt(s, target, i + 1);
        assert s[1..][i..] == s[i + 1..];
      }
      ReplaceAbsent(s[1..], target, replacement);
      assert s == [s[0]] + s[1..];
    }
  }

  /**
   * Where the suffix occurs in `stem + t` only at its very end, removing
   * every occurrence is the same as stripping the trailing one.
   */
  lemma {:induction false} RemoveTrailingOnly(stem: string, t: string)
    requires t != []
    requires forall i: nat :: i < |stem| ==> !OccursAt(stem + t, t, i)
    ensures RemoveAll(stem + t, t) == stem
    decreases |stem|
  {
    var s := stem + t;
    if stem == [] {
      assert s == t;
      assert StartsWith(s, t);
      assert s[|t|..] == [];
      assert ReplaceAll(s, t, "") == "" + ReplaceAll([], t, "");
    } else {
      assert !OccursAt(s, t, 0);
      assert s[0..] == s;
      assert s[1..] == stem[1..] + t;
      forall i: nat | i < |stem[1..]|
        ensures !OccursAt(stem[1..] + t, t, i)
      {
        assert !OccursAt(s, t, i + 1);
        assert s[1..][i..] == s[i + 1..];
      }
      RemoveTrailingOnly(stem[1..], t);
      assert stem == [stem[0]] + stem[1..];
    }
  }

  /**
   * A prefix that does not contain the target's first character is passed
   * over unchanged.
   */
  lemma {:induction false} RemoveAllSkips(a: string, rest: string, t: string)
    requires t != [] && t[0] !in a
    ensures RemoveAll(a + rest, t) == a + RemoveAll(rest, t)
    decreases |a|
  {
    var s := a + rest;
    if a == [] {
      assert s == rest;
    } else {
      assert s[0] == a[0] && !StartsWith(s, t);
      assert ReplaceAll(s, t, "") == [s[0]] + ReplaceAll(s[1..], t, "");
      assert s[1..] == a[1..] + rest;
      RemoveAllSkips(a[1..], rest, t);
      assert a == [a[0]] + a[1..];
    }
  }

  /** A target whose first character is absent from `a` cannot start inside `a`. */
  lemma NoOccurrenceWithin(a: string, rest: string, t: string)
    requires t != [] && t[0] !in a
    ensures forall i: nat :: i < |a| ==> !OccursAt(a + rest, t, i)
  {
    forall i: nat | i < |a| ensures !OccursAt(a + rest, t, i) {
      assert (a + rest)[i..][0] == a[i];
    }
  }

  /** An occurrence of the target at the front is dropped. */
  lemma RemoveAllDropsFront(rest: string, t: string)
    requires t != []
    ensures RemoveAll(t + rest, t) == RemoveAll(rest, t)
  {
    var s := t + rest;
    assert StartsWith(s, t) && s[|t|..] == rest;
  }

  /** Replacing only ever produces characters of the input or of the replacement. */
  lemma {:induction false} ReplaceAllCharacters(s: string, target: string, replacement: string)
    ensures forall c :: c in ReplaceAll(s, target, replacement) ==> c in s || c in replacement
    decreases |s|
  {
    if s != [] {
      var rest := if target != [] && StartsWith(s, target) then s[|target|..] else s[1..];
      ReplaceAllCharacters(rest, target, replacement);
      forall c | c in rest ensures c in s {
        var i :| 0 <= i < |rest| && rest[i] == c;
        assert s[|s| - |rest| + i] == c;
      }
    }
  }
}
