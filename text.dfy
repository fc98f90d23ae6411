/**
 * The string helpers the site generator registers with the template engine
 * (`hasPrefix` and `eq`), and the substring test used to pick a tutorial's
 * language.
 */
module Text {

  /**
   * The `hasPrefix` template helper: the length guard comes first, so the
   * slice of `s` is only taken when it is in range.
   */
  function HasPrefix(s: string, prefix: string): (r: bool)
    ensures r <==> prefix <= s
  {
    |s| >= |prefix| && s[0..|prefix|] == prefix
  }

  /** The `eq` template helper: string equality. */
  function Eq(a: string, b: string): bool
  {
    a == b
  }

  /** `eq` is an equivalence: reflexive, symmetric and transitive. */
  lemma EqIsEquivalence(a: string, b: string, c: string)
    ensures Eq(a, a)
    ensures Eq(a, b) == Eq(b, a)
    ensures Eq(a, b) && Eq(b, c) ==> Eq(a, c)
  {
  }

  /** Two strings that are prefixes of each other are equal in the sense of `eq`. */
  lemma HasPrefixAntisymmetric(a: string, b: string)
    ensures HasPrefix(a, b) && HasPrefix(b, a) <==> Eq(a, b)
  {
  }

  /** `sub` occurs in `s` starting at index `i`. */
  predicate OccursAt(s: string, sub: string, i: nat)
  {
    i + |sub| <= |s| && s[i..i + |sub|] == sub
  }

  /** `strings.Contains(s, sub)`: some suffix of `s` starts with `sub`. */
  function Contains(s: string, sub: string): bool
    decreases |s|
  {
    HasPrefix(s, sub) || (s != [] && Contains(s[1..], sub))
  }

  /** Contains holds exactly when `sub` occurs somewhere in `s`. */
  lemma {:induction false} ContainsIff(s: string, sub: string)
    ensures Contains(s, sub) <==> exists i: nat :: OccursAt(s, sub, i)
    decreases |s|
  {
    if HasPrefix(s, sub) {
      assert OccursAt(s, sub, 0);
    }
    if s != [] {
      ContainsIff(s[1..], sub);
      if exists i: nat :: OccursAt(s[1..], sub, i) {
        var i: nat :| OccursAt(s[1..], sub, i);
        assert s[i + 1..i + 1 + |sub|] == s[1..][i..i + |sub|];
        assert OccursAt(s, sub, i + 1);
      }
      if exists i: nat :: OccursAt(s, sub, i) {
        var i: nat :| OccursAt(s, sub, i);
        if i > 0 {
          assert s[1..][i - 1..i - 1 + |sub|] == s[i..i + |sub|];
          assert OccursAt(s[1..], sub, i - 1);
        } else {
          assert s[..|sub|] == sub;
        }
      }
    } else {
      if exists i: nat :: OccursAt(s, sub, i) {
        var i: nat :| OccursAt(s, sub, i);
        assert sub == [];
      }
    }
  }

  /** A string never contains a longer one. */
  lemma ContainsOnlyShorter(s: string, sub: string)
    requires |s| < |sub|
    ensures !Contains(s, sub)
  {
    ContainsIff(s, sub);
  }

  /** An occurrence at a known place is found. */
  lemma ContainsAt(s: string, sub: string, i: nat)
    requires OccursAt(s, sub, i)
    ensures Contains(s, sub)
  {
    ContainsIff(s, sub);
  }
}
