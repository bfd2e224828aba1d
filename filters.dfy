/**
 * Character filters: a global `replace` of a one-character class by the empty
 * string keeps exactly the characters outside that class, in order.
 * `SanitizeId` is the radio id cleaner; `StripControl` is the last cleaning step
 * of the paste-and-decode helper.
 */
module Filters {

  /** Keep the characters of `s` that satisfy `keep`, in their original order. */
  function Filter(s: seq<char>, keep: char -> bool): seq<char>
  {
    if s == [] then [] else (if keep(s[0]) then [s[0]] else []) + Filter(s[1..], keep)
  }

  /** `sub` can be obtained from `s` by deleting zero or more characters. */
  predicate IsSubsequence(sub: seq<char>, s: seq<char>)
  {
    if sub == [] then true
    else if s == [] then false
    else if sub[0] == s[0] then IsSubsequence(sub[1..], s[1..])
    else IsSubsequence(sub, s[1..])
  }

  lemma {:induction false} FilterKeepsOnly(s: seq<char>, keep: char -> bool)
    ensures forall i :: 0 <= i < |Filter(s, keep)| ==> keep(Filter(s, keep)[i])
  {
    if s != [] {
      FilterKeepsOnly(s[1..], keep);
    }
  }

  lemma {:induction false} FilterIsSubsequence(s: seq<char>, keep: char -> bool)
    ensures IsSubsequence(Filter(s, keep), s)
  {
    if s != [] {
      FilterIsSubsequence(s[1..], keep);
      var rest := Filter(s[1..], keep);
      if keep(s[0]) {
        assert Filter(s, keep) == [s[0]] + rest;
        assert ([s[0]] + rest)[1..] == rest;
      } else {
        FilterKeepsOnly(s[1..], keep);
        assert Filter(s, keep) == rest;
        assert rest != [] ==> rest[0] != s[0];
      }
    }
  }

  /** Every character the filter keeps keeps all its occurrences; the others lose all of theirs. */
  lemma {:induction false} FilterCounts(s: seq<char>, keep: char -> bool)
    ensures forall c :: multiset(Filter(s, keep))[c] == if keep(c) then multiset(s)[c] else 0
  {
    if s != [] {
      FilterCounts(s[1..], keep);
      assert s == [s[0]] + s[1..];
      assert multiset(s) == multiset([s[0]]) + multiset(s[1..]);
      var head := if keep(s[0]) then [s[0]] else [];
      assert multiset(Filter(s, keep)) == multiset(head) + multiset(Filter(s[1..], keep));
    }
  }

  /** A string made only of kept characters passes through unchanged. */
  lemma {:induction false} FilterKeepsAll(s: seq<char>, keep: char -> bool)
    requires forall i :: 0 <= i < |s| ==> keep(s[i])
    ensures Filter(s, keep) == s
  {
    if s != [] {
      FilterKeepsAll(s[1..], keep);
      assert [s[0]] + s[1..] == s;
    }
  }

  /** The filter leaves a string alone exactly when every character of it is kept. */
  lemma FilterFixedPoint(s: seq<char>, keep: char -> bool)
    ensures Filter(s, keep) == s <==> forall i :: 0 <= i < |s| ==> keep(s[i])
  {
    FilterKeepsOnly(s, keep);
    if forall i :: 0 <= i < |s| ==> keep(s[i]) {
      FilterKeepsAll(s, keep);
    }
  }

  lemma FilterIdempotent(s: seq<char>, keep: char -> bool)
    ensures Filter(Filter(s, keep), keep) == Filter(s, keep)
  {
    FilterKeepsOnly(s, keep);
    FilterKeepsAll(Filter(s, keep), keep);
  }

  /** A global replace works character by character, so it distributes over concatenation. */
  lemma {:induction false} FilterConcat(a: seq<char>, b: seq<char>, keep: char -> bool)
    ensures Filter(a + b, keep) == Filter(a, keep) + Filter(b, keep)
  {
    if a != [] {
      FilterConcat(a[1..], b, keep);
      assert (a + b)[0] == a[0];
      assert (a + b)[1..] == a[1..] + b;
    } else {
      assert a + b == b;
    }
  }

  // ----- sanitizeId: keep only [A-Za-z0-9_-] -----

  predicate IsIdChar(c: char)
  {
    ('a' <= c <= 'z') || ('A' <= c <= 'Z') || ('0' <= c <= '9') || c == '_' || c == '-'
  }

  /**
   * The radio id suffix for an option text: every character outside
   * `[A-Za-z0-9_-]` is removed. The result uses only id characters, keeps the
   * order of the input and every occurrence of each id character.
   */
  function SanitizeId(text: string): (r: string)
    ensures forall i :: 0 <= i < |r| ==> IsIdChar(r[i])
    ensures IsSubsequence(r, text)
    ensures forall c :: multiset(r)[c] == if IsIdChar(c) then multiset(text)[c] else 0
  {
    FilterKeepsOnly(text, IsIdChar);
    FilterIsSubsequence(text, IsIdChar);
    FilterCounts(text, IsIdChar);
    Filter(text, IsIdChar)
  }

  lemma SanitizeIdIdempotent(text: string)
    ensures SanitizeId(SanitizeId(text)) == SanitizeId(text)
  {
    FilterIdempotent(text, IsIdChar);
  }

  lemma SanitizeIdFixedPoint(text: string)
    ensures SanitizeId(text) == text <==> forall i :: 0 <= i < |text| ==> IsIdChar(text[i])
  {
    FilterFixedPoint(text, IsIdChar);
  }

  // ----- control-character strip: remove \x00-\x08, \x0B, \x0C, \x0E-\x1F -----

  /** The characters the decode helper removes; tab, line feed and carriage return are not among them. */
  predicate IsStrippedControl(c: char)
  {
    var n := c as int;
    (0 <= n <= 0x08) || n == 0x0B || n == 0x0C || (0x0E <= n <= 0x1F)
  }

  function StripControl(text: string): (r: string)
    ensures forall i :: 0 <= i < |r| ==> !IsStrippedControl(r[i])
    ensures IsSubsequence(r, text)
    ensures forall c :: multiset(r)[c] == if IsStrippedControl(c) then 0 else multiset(text)[c]
  {
    FilterKeepsOnly(text, KeptByStrip);
    FilterIsSubsequence(text, KeptByStrip);
    FilterCounts(text, KeptByStrip);
    Filter(text, KeptByStrip)
  }

  predicate KeptByStrip(c: char)
  {
    !IsStrippedControl(c)
  }

  /** Tab, line feed and carriage return survive the strip; the neighbouring control codes do not. */
  lemma StripControlTable()
    ensures !IsStrippedControl('\t') && !IsStrippedControl('\n') && !IsStrippedControl('\r')
    ensures IsStrippedControl('\0') && IsStrippedControl('\U{8}') && IsStrippedControl('\U{B}')
    ensures IsStrippedControl('\U{C}') && IsStrippedControl('\U{E}') && IsStrippedControl('\U{1F}')
    ensures !IsStrippedControl(' ') && !IsStrippedControl('\U{7F}')
  {
  }

  lemma StripControlIdempotent(text: string)
    ensures StripControl(StripControl(text)) == StripControl(text)
  {
    FilterIdempotent(text, KeptByStrip);
  }
}
