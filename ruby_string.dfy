/**
 * The handful of Ruby `String` and `Array` methods the script leans on, written out over
 * `seq<char>`: `rjust` (status cells), `join` (the constraints script), `gsub` with a literal
 * pattern and an empty replacement (constraint removal), and a split at commas used to read
 * a joined list of clauses back.
 */
module RubyString {

  /** `n` spaces. */
  function Spaces(n: nat): (r: string)
    ensures |r| == n
    ensures forall i :: 0 <= i < n ==> r[i] == ' '
  {
    if n == 0 then "" else Spaces(n - 1) + " "
  }

  /**
   * `s.rjust(width)`: pad `s` on the left with spaces up to `width` characters; a string
   * that is already at least `width` long (including any negative width) comes back as is.
   */
  function RJust(s: string, width: int): (r: string)
    ensures |r| == if |s| < width then width else |s|
    ensures r[|r| - |s|..] == s
    ensures forall i :: 0 <= i < |r| - |s| ==> r[i] == ' '
  {
    if |s| >= width then s else Spaces(width - |s|) + s
  }

  /** `xs.join(sep)`. */
  function Join(xs: seq<string>, sep: string): string
  {
    if |xs| == 0 then ""
    else if |xs| == 1 then xs[0]
    else xs[0] + sep + Join(xs[1..], sep)
  }

  /** `pat` occurs in `s` starting at index `i`. */
  predicate OccursAt(s: string, pat: string, i: int)
  {
    0 <= i && i + |pat| <= |s| && s[i..i + |pat|] == pat
  }

  /**
   * `s.gsub(pat, '')` for a literal, non-empty `pat`: scanning left to right, every
   * occurrence found is deleted and the scan resumes right after it, so occurrences never
   * overlap and text that only comes together after a deletion is left alone.
   */
  function Gsub(s: string, pat: string): (r: string)
    requires |pat| > 0
    ensures |r| <= |s|
    decreases |s|
  {
    if |s| < |pat| then s
    else if s[..|pat|] == pat then Gsub(s[|pat|..], pat)
    else [s[0]] + Gsub(s[1..], pat)
  }

  /** `gsub` leaves a string in which the pattern does not occur untouched. */
  lemma {:induction false} GsubAbsent(s: string, pat: string)
    requires |pat| > 0
    requires forall i :: !OccursAt(s, pat, i)
    ensures Gsub(s, pat) == s
    decreases |s|
  {
    if |s| >= |pat| {
      assert !OccursAt(s, pat, 0);
      forall i ensures !OccursAt(s[1..], pat, i) {
        if OccursAt(s[1..], pat, i) {
          assert s[1..][i..i + |pat|] == s[i + 1..i + 1 + |pat|];
          assert OccursAt(s, pat, i + 1);
        }
      }
      GsubAbsent(s[1..], pat);
      assert s == [s[0]] + s[1..];
    }
  }

  /**
   * The first occurrence is deleted where it stands: the text before it is kept verbatim and
   * the scan carries on after it.
   */
  lemma {:induction false} GsubFirst(a: string, pat: string, b: string)
    requires |pat| > 0
    requires forall q :: 0 <= q < |a| ==> !OccursAt(a + pat + b, pat, q)
    ensures Gsub(a + pat + b, pat) == a + Gsub(b, pat)
    decreases |a|
  {
    var s := a + pat + b;
    if a == [] {
      assert s == pat + b;
      assert s[..|pat|] == pat;
      assert s[|pat|..] == b;
    } else {
      assert s[1..] == a[1..] + pat + b;
      ShiftNone(s, pat, |a|);
      GsubFirst(a[1..], pat, b);
      GsubKeeps(s, pat);
      assert a == [a[0]] + a[1..];
    }
  }

  /** Where the pattern does not start, the first character is kept. */
  lemma GsubKeeps(s: string, pat: string)
    requires |pat| > 0 && |s| > 0
    requires !OccursAt(s, pat, 0)
    ensures Gsub(s, pat) == [s[0]] + Gsub(s[1..], pat)
  {
    if |s| >= |pat| {
      assert s[..|pat|] != pat;
    }
  }

  /** No occurrence before `i` in `s` means none before `i - 1` in `s[1..]`. */
  lemma ShiftNone(s: string, pat: string, i: nat)
    requires 0 < i <= |s|
    requires forall q :: 0 <= q < i ==> !OccursAt(s, pat, q)
    ensures forall q :: 0 <= q < i - 1 ==> !OccursAt(s[1..], pat, q)
  {
    forall q | 0 <= q < i - 1 ensures !OccursAt(s[1..], pat, q) {
      ShiftOccurs(s, pat, q);
    }
  }

  /** An occurrence in `s[1..]` is an occurrence in `s` one place further on. */
  lemma ShiftOccurs(s: string, pat: string, q: nat)
    requires |s| > 0
    ensures OccursAt(s[1..], pat, q) <==> OccursAt(s, pat, q + 1)
  {
    if q + |pat| <= |s| - 1 {
      assert s[1..][q..q + |pat|] == s[q + 1..q + 1 + |pat|];
    }
  }

  /** A slice of a slice is a slice. */
  lemma SubSlice(s: string, a: nat, n: nat, o: nat, m: nat)
    requires a + n <= |s| && o + m <= n
    ensures s[a..a + n][o..o + m] == s[a + o..a + o + m]
  {
    var x, y := s[a..a + n][o..o + m], s[a + o..a + o + m];
    forall j | 0 <= j < m ensures x[j] == y[j] {
    }
  }

  /** The pieces between the commas of `s`, empty ones included (one piece when there is no comma). */
  function SplitComma(s: string): (parts: seq<string>)
    ensures |parts| >= 1
    ensures forall k :: 0 <= k < |parts| ==> ',' !in parts[k]
  {
    if s == [] then [""]
    else if s[0] == ',' then [""] + SplitComma(s[1..])
    else
      var rest := SplitComma(s[1..]);
      [[s[0]] + rest[0]] + rest[1..]
  }

  /** A comma-free prefix becomes the first piece; the split continues after the comma. */
  lemma {:induction false} SplitCommaAfter(a: string, b: string)
    requires ',' !in a
    ensures SplitComma(a + "," + b) == [a] + SplitComma(b)
    decreases |a|
  {
    if a == [] {
      assert a + "," + b == [','] + b;
    } else {
      assert (a + "," + b)[1..] == a[1..] + "," + b;
      SplitCommaAfter(a[1..], b);
      assert [a[0]] + a[1..] == a;
    }
  }

  /** A comma-free string is a single piece. */
  lemma {:induction false} SplitCommaNone(a: string)
    requires ',' !in a
    ensures SplitComma(a) == [a]
    decreases |a|
  {
    if a != [] {
      SplitCommaNone(a[1..]);
      assert [a[0]] + a[1..] == a;
    }
  }

  /**
   * Joining comma-free items with a separator that starts with a comma and has no other
   * comma can be split back: piece 0 is `lead` plus the first item, piece `k` is the rest of
   * the separator plus item `k`.
   */
  lemma {:induction false} SplitJoin(lead: string, xs: seq<string>, rest: string)
    requires |xs| > 0
    requires ',' !in lead && ',' !in rest
    requires forall k :: 0 <= k < |xs| ==> ',' !in xs[k]
    ensures var parts := SplitComma(lead + Join(xs, "," + rest));
      && |parts| == |xs|
      && parts[0] == lead + xs[0]
      && forall k :: 0 < k < |xs| ==> parts[k] == rest + xs[k]
    decreases |xs|
  {
    if |xs| == 1 {
      SplitCommaNone(lead + xs[0]);
    } else {
      var tail := Join(xs[1..], "," + rest);
      assert lead + Join(xs, "," + rest) == (lead + xs[0]) + "," + (rest + tail);
      SplitCommaAfter(lead + xs[0], rest + tail);
      SplitJoin(rest, xs[1..], rest);
    }
  }
}
