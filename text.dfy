/** Whitespace, trimming and measured length, as used by `String.prototype.trim`, by the
    `trim()` sanitizer of the request validators and by the `\s` class of the
    regular expressions in the routes.  The whitespace set is fixed (see
    README): the ASCII blanks, no-break space and the byte-order mark. */
module Text {

  predicate IsSpace(c: char)
  {
    c == ' ' || c == '\t' || c == '\n' || c == '\r' ||
    c == '\U{000B}' || c == '\U{000C}' || c == '\U{00A0}' || c == '\U{FEFF}'
  }

  /** `\d` (no Unicode flag): an ASCII digit. */
  predicate IsDigit(c: char)
  {
    '0' <= c <= '9'
  }

  predicate AllSpace(s: string)
  {
    forall i :: 0 <= i < |s| ==> IsSpace(s[i])
  }

  /** A string that neither starts nor ends with whitespace: what trimming yields. */
  predicate Trimmed(s: string)
  {
    s == [] || (!IsSpace(s[0]) && !IsSpace(s[|s| - 1]))
  }

  /** The number of whitespace characters at the front of `s`. */
  function LeadingSpace(s: string): (k: nat)
    ensures k <= |s|
    ensures forall i :: 0 <= i < k ==> IsSpace(s[i])
    ensures k < |s| ==> !IsSpace(s[k])
  {
    if s == [] || !IsSpace(s[0]) then 0 else 1 + LeadingSpace(s[1..])
  }

  /** The index at which the whitespace at the back of `s` begins. */
  function TrailingStart(s: string): (k: nat)
    ensures k <= |s|
    ensures forall i :: k <= i < |s| ==> IsSpace(s[i])
    ensures 0 < k ==> !IsSpace(s[k - 1])
  {
    if s == [] || !IsSpace(s[|s| - 1]) then |s| else TrailingStart(s[..|s| - 1])
  }

  /** `s` without its leading and trailing whitespace. */
  function Trim(s: string): (t: string)
    ensures |t| <= |s|
    ensures Trimmed(t)
    ensures t == [] <==> AllSpace(s)
  {
    var u := s[LeadingSpace(s)..];
    assert AllSpace(s) ==> u == [];
    u[..TrailingStart(u)]
  }

  /** The leading-whitespace count is the only index with the properties
      LeadingSpace promises. */
  lemma LeadingSpaceUnique(s: string, k: nat)
    requires k <= |s|
    requires forall i :: 0 <= i < k ==> IsSpace(s[i])
    requires k < |s| ==> !IsSpace(s[k])
    ensures LeadingSpace(s) == k
  {
  }

  lemma TrailingStartUnique(s: string, k: nat)
    requires k <= |s|
    requires forall i :: k <= i < |s| ==> IsSpace(s[i])
    requires 0 < k ==> !IsSpace(s[k - 1])
    ensures TrailingStart(s) == k
  {
  }

  /** Trimming strips exactly the surrounding whitespace: together with the
      contract of Trim this determines Trim on every string. */
  lemma TrimPadded(lead: string, core: string, trail: string)
    requires AllSpace(lead) && AllSpace(trail) && Trimmed(core)
    ensures Trim(lead + core + trail) == core
  {
    var s := lead + core + trail;
    if core == [] {
      assert s == lead + trail;
      assert AllSpace(s);
    } else {
      assert s[|lead|] == core[0];
      LeadingSpaceUnique(s, |lead|);
      var u := s[|lead|..];
      assert u == core + trail;
      assert u[|core| - 1] == core[|core| - 1];
      TrailingStartUnique(u, |core|);
      assert u[..|core|] == core;
    }
  }

  /** U+FE0E and U+FE0F, the text and emoji presentation selectors. */
  predicate IsPresentationSelector(c: char)
  {
    c == '\U{FE0E}' || c == '\U{FE0F}'
  }

  /** The length as the `isLength` validator measures it: code points (one
      per Dafny character), not counting presentation selectors. */
  function CountedLength(s: string): (n: nat)
    ensures n <= |s|
  {
    if s == [] then 0
    else CountedLength(s[..|s| - 1]) + (if IsPresentationSelector(s[|s| - 1]) then 0 else 1)
  }

  /** Every character counts exactly when there is no presentation selector. */
  lemma {:induction false} CountedLengthFull(s: string)
    ensures CountedLength(s) == |s| <==> forall i :: 0 <= i < |s| ==> !IsPresentationSelector(s[i])
  {
    if s != [] {
      var front := s[..|s| - 1];
      CountedLengthFull(front);
      assert forall i :: 0 <= i < |front| ==> front[i] == s[i];
    }
  }

  /** Nothing counts exactly when every character is a presentation selector. */
  lemma {:induction false} CountedLengthZero(s: string)
    ensures CountedLength(s) == 0 <==> forall i :: 0 <= i < |s| ==> IsPresentationSelector(s[i])
  {
    if s != [] {
      var front := s[..|s| - 1];
      CountedLengthZero(front);
      assert forall i :: 0 <= i < |front| ==> front[i] == s[i];
    }
  }

  /** Trimming is idempotent. */
  lemma TrimIdempotent(s: string)
    ensures Trim(Trim(s)) == Trim(s)
  {
    var t := Trim(s);
    assert [] + t + [] == t;
    TrimPadded([], t, []);
  }
}
