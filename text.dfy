/** The text operations the search relies on: case folding and substring
    containment. Case folding is ASCII-only (see README). */
module Text {

  predicate IsAsciiUpper(c: char)
  {
    'A' <= c <= 'Z'
  }

  function LowerChar(c: char): char
  {
    if IsAsciiUpper(c) then (c as int + 32) as char else c
  }

  /** ASCII lower-casing, the model of `toLowerCase`. */
  function Lower(s: string): (r: string)
    ensures |r| == |s|
    ensures forall i :: 0 <= i < |r| ==> !IsAsciiUpper(r[i])
    ensures forall i :: 0 <= i < |s| && IsAsciiUpper(s[i]) ==> r[i] as int == s[i] as int + 32
    ensures forall i :: 0 <= i < |s| && !IsAsciiUpper(s[i]) ==> r[i] == s[i]
  {
    seq(|s|, i requires 0 <= i < |s| => LowerChar(s[i]))
  }

  /** Lower-casing twice is lower-casing once. */
  lemma LowerIdempotent(s: string)
    ensures Lower(Lower(s)) == Lower(s)
  {
  }

  /** `c` and `d` are the same character, or the same ASCII letter in the
      two cases. */
  predicate SameCharUpToCase(c: char, d: char)
  {
    || c == d
    || (IsAsciiUpper(c) && d as int == c as int + 32)
    || (IsAsciiUpper(d) && c as int == d as int + 32)
  }

  /** `u` and `v` differ at most in the case of ASCII letters. */
  predicate SameUpToCase(u: string, v: string)
  {
    |u| == |v| && forall i :: 0 <= i < |u| ==> SameCharUpToCase(u[i], v[i])
  }

  /** Two texts lower-case alike exactly when they differ at most in the
      case of ASCII letters. */
  lemma LowerEqualIff(u: string, v: string)
    ensures Lower(u) == Lower(v) <==> SameUpToCase(u, v)
  {
    if SameUpToCase(u, v) {
      forall i | 0 <= i < |u| ensures Lower(u)[i] == Lower(v)[i] {
        assert SameCharUpToCase(u[i], v[i]);
      }
    }
    if Lower(u) == Lower(v) {
      forall i | 0 <= i < |u| ensures SameCharUpToCase(u[i], v[i]) {
        assert Lower(u)[i] == Lower(v)[i];
      }
    }
  }

  /** `sub` occurs in `s` starting at position `i`. */
  ghost predicate OccursAt(s: string, sub: string, i: int)
  {
    0 <= i && i + |sub| <= |s| && s[i..i + |sub|] == sub
  }

  /** Substring containment, the model of `includes`: `sub` is a prefix of
      `s` or of one of its suffixes. It holds exactly when `sub` occurs at
      some position of `s`. */
  function Contains(s: string, sub: string): (r: bool)
    ensures r <==> exists i :: OccursAt(s, sub, i)
    decreases |s|
  {
    if sub <= s then
      assert OccursAt(s, sub, 0);
      true
    else if s == [] then false
    else
      var rest := Contains(s[1..], sub);
      assert rest <==> exists i :: OccursAt(s, sub, i) by {
        if rest {
          var i :| OccursAt(s[1..], sub, i);
          assert s[i + 1..i + 1 + |sub|] == s[1..][i..i + |sub|];
          assert OccursAt(s, sub, i + 1);
        }
        if exists i :: OccursAt(s, sub, i) {
          var i :| OccursAt(s, sub, i);
          assert s[1..][i - 1..i - 1 + |sub|] == s[i..i + |sub|];
          assert OccursAt(s[1..], sub, i - 1);
        }
      }
      rest
  }

  /** A non-empty text whose first character does not occur in `s` is not
      contained in `s`. */
  lemma {:induction false} NotContainsWithoutFirst(s: string, sub: string)
    requires sub != [] && sub[0] !in s
    ensures !Contains(s, sub)
    decreases |s|
  {
    if s != [] {
      assert s[0] != sub[0];
      assert forall c :: c in s[1..] ==> c in s;
      NotContainsWithoutFirst(s[1..], sub);
    }
  }
}
