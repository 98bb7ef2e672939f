/**
 * The dump phase's treatment of one table's `CREATE TABLE` text: every constraint clause is
 * found with the pattern `(,[^A-Z\)]*(CONSTRAINT[^\n,]*))`, cut out of the schema, and
 * collected into a script that adds the constraints back once all data is loaded.
 *
 * The pattern is written out as a deterministic scanner. At a comma it skips the longest run
 * of characters that are neither an upper-case ASCII letter nor `)`; the keyword must start
 * right there (it starts with `C`, which the run cannot contain, so there is nothing to
 * backtrack into); the clause then runs greedily up to the next newline or comma.
 */
module DumpSchema {
  import opened Wrappers
  import opened RubyString

  const Keyword := "CONSTRAINT"

  /** The two character classes of the pattern. */
  datatype CharClass = NotUpperOrParen | NotNewlineOrComma

  predicate IsUpper(ch: char)
  {
    'A' <= ch <= 'Z'
  }

  /** `[^A-Z\)]` and `[^\n,]`; a negated class matches a newline too. */
  predicate InClass(cls: CharClass, ch: char)
  {
    match cls
    case NotUpperOrParen => !IsUpper(ch) && ch != ')'
    case NotNewlineOrComma => ch != '\n' && ch != ','
  }

  /** Every character of `s[lo..hi]` is in class `cls`. */
  predicate AllIn(s: string, lo: nat, hi: nat, cls: CharClass)
    requires lo <= hi <= |s|
    decreases hi - lo
  {
    lo == hi || (InClass(cls, s[lo]) && AllIn(s, lo + 1, hi, cls))
  }

  /** `AllIn` holds exactly when each character of the range is in the class. */
  lemma {:induction false} AllInAt(s: string, lo: nat, hi: nat, cls: CharClass, k: nat)
    requires lo <= k < hi <= |s| && AllIn(s, lo, hi, cls)
    ensures InClass(cls, s[k])
    decreases hi - lo
  {
    if k > lo {
      AllInAt(s, lo + 1, hi, cls, k);
    }
  }

  /** Characters equal position by position keep `AllIn`: the range moved from `p` to `q`. */
  lemma {:induction false} AllInShift(s: string, p: nat, q: nat, lo: nat, hi: nat, cls: CharClass)
    requires p + hi <= |s| && q + hi <= |s| && lo <= hi
    requires forall i :: p + lo <= i < p + hi ==> s[i] == s[q + (i - p)]
    requires AllIn(s, p + lo, p + hi, cls)
    ensures AllIn(s, q + lo, q + hi, cls)
    decreases hi - lo
  {
    if lo < hi {
      assert s[p + lo] == s[q + lo];
      AllInShift(s, p, q, lo + 1, hi, cls);
    }
  }

  /** Where a greedy `[...]*` of class `cls` started at `i` stops. */
  function SpanEnd(s: string, i: nat, cls: CharClass): (e: nat)
    requires i <= |s|
    ensures i <= e <= |s| && AllIn(s, i, e, cls)
    ensures e == |s| || !InClass(cls, s[e])
    decreases |s| - i
  {
    if i == |s| || !InClass(cls, s[i]) then i else SpanEnd(s, i + 1, cls)
  }

  /** A run of the class ending at a character outside it (or at the end) is the greedy span. */
  lemma {:induction false} SpanEndUnique(s: string, i: nat, e: nat, cls: CharClass)
    requires i <= e <= |s| && AllIn(s, i, e, cls)
    requires e == |s| || !InClass(cls, s[e])
    ensures SpanEnd(s, i, cls) == e
    decreases e - i
  {
    if i < e {
      SpanEndUnique(s, i + 1, e, cls);
    }
  }

  /** The greedy span is at least as long as any run of the class. */
  lemma {:induction false} SpanEndLongest(s: string, i: nat, e: nat, cls: CharClass)
    requires i <= e <= |s| && AllIn(s, i, e, cls)
    ensures e <= SpanEnd(s, i, cls)
    decreases e - i
  {
    if i < e {
      SpanEndLongest(s, i + 1, e, cls);
    }
  }

  /**
   * One match: the comma at `comma`, the keyword at `keyword`, and the end of the clause at
   * `stop`. The outer group is `[comma, stop)`, the inner group `[keyword, stop)`.
   */
  datatype Capture = Capture(comma: nat, keyword: nat, stop: nat)

  /**
   * The pattern read as a language: `s[p..e]` is a comma, a run of characters outside
   * `A-Z` and `)`, the keyword at `j`, and characters other than newline and comma.
   */
  predicate RegexMatch(s: string, p: int, j: int, e: int)
  {
    && 0 <= p < j && j + |Keyword| <= e <= |s|
    && s[p] == ','
    && AllIn(s, p + 1, j, NotUpperOrParen)
    && s[j..j + |Keyword|] == Keyword
    && AllIn(s, j + |Keyword|, e, NotNewlineOrComma)
  }

  /** The match the pattern makes when tried at position `p`, if any. */
  function MatchAt(s: string, p: nat): (m: Option<Capture>)
    ensures m.Some? ==> m.value.comma == p && RegexMatch(s, p, m.value.keyword, m.value.stop)
  {
    if p < |s| && s[p] == ',' then
      var j := SpanEnd(s, p + 1, NotUpperOrParen);
      if OccursAt(s, Keyword, j) then
        Some(Capture(p, j, SpanEnd(s, j + |Keyword|, NotNewlineOrComma)))
      else None
    else None
  }

  /**
   * `MatchAt` is what the regex engine picks at `p`: a match exists exactly when it says so,
   * the keyword position is forced, and the clause is the longest one (greedy `*`).
   */
  lemma MatchAtSpec(s: string, p: nat, j: int, e: int)
    ensures RegexMatch(s, p, j, e) ==> MatchAt(s, p).Some?
    ensures RegexMatch(s, p, j, e) ==> MatchAt(s, p).value.keyword == j && e <= MatchAt(s, p).value.stop
  {
    if RegexMatch(s, p, j, e) {
      assert s[j] == Keyword[0];
      SpanEndUnique(s, p + 1, j, NotUpperOrParen);
      SpanEndLongest(s, j + |Keyword|, e, NotNewlineOrComma);
    }
  }

  /** The leftmost match at or after `q`: the engine tries each start position in turn. */
  function NextMatch(s: string, q: nat): (m: Option<Capture>)
    requires q <= |s|
    ensures m.Some? ==> q <= m.value.comma && MatchAt(s, m.value.comma) == m
    decreases |s| - q
  {
    if q == |s| then None
    else if MatchAt(s, q).Some? then MatchAt(s, q)
    else NextMatch(s, q + 1)
  }

  /** No match starts between `q` and the one `NextMatch` finds (or after `q` at all, if none). */
  lemma {:induction false} NextMatchFirst(s: string, q: nat, p: nat)
    requires q <= p < |s|
    requires NextMatch(s, q).None? || p < NextMatch(s, q).value.comma
    ensures MatchAt(s, p).None?
    decreases |s| - q
  {
    if p > q && MatchAt(s, q).None? {
      NextMatchFirst(s, q + 1, p);
    }
  }

  /** If a match starts at `p`, `NextMatch` from any earlier `q` finds one at or before `p`. */
  lemma {:induction false} NextMatchFinds(s: string, q: nat, p: nat)
    requires q <= p < |s| && MatchAt(s, p).Some?
    ensures NextMatch(s, q).Some? && NextMatch(s, q).value.comma <= p
    decreases |s| - q
  {
    if MatchAt(s, q).None? {
      NextMatchFinds(s, q + 1, p);
    }
  }

  /** `s.scan(pattern)` from `q`: find the leftmost match, record it, resume where it ends. */
  function ScanFrom(s: string, q: nat): (caps: seq<Capture>)
    requires q <= |s|
    ensures forall k :: 0 <= k < |caps| ==>
      q <= caps[k].comma < caps[k].keyword && caps[k].keyword + |Keyword| <= caps[k].stop <= |s|
    ensures forall i, j :: 0 <= i < j < |caps| ==> caps[i].stop <= caps[j].comma
    decreases |s| - q
  {
    match NextMatch(s, q)
    case None => []
    case Some(c) => [c] + ScanFrom(s, c.stop)
  }

  /** All matches of the pattern in `s`, in order. */
  function Scan(s: string): seq<Capture>
  {
    ScanFrom(s, 0)
  }

  /** Unfolding the scan when a match is found. */
  lemma ScanFromSome(s: string, q: nat, c: Capture)
    requires q <= |s| && NextMatch(s, q) == Some(c)
    ensures ScanFrom(s, q) == [c] + ScanFrom(s, c.stop)
  {
  }

  /** Every capture is a match of the pattern, namely the one the engine makes at its comma. */
  lemma {:induction false} ScanRegex(s: string, q: nat, k: nat)
    requires q <= |s| && k < |ScanFrom(s, q)|
    ensures var c := ScanFrom(s, q)[k];
      MatchAt(s, c.comma) == Some(c) && RegexMatch(s, c.comma, c.keyword, c.stop)
    decreases |s| - q
  {
    var c := NextMatch(s, q).value;
    ScanFromSome(s, q, c);
    if k > 0 {
      assert ScanFrom(s, q)[k] == ScanFrom(s, c.stop)[k - 1];
      ScanRegex(s, c.stop, k - 1);
    } else {
      assert ScanFrom(s, q)[0] == c;
    }
  }

  /** The scan is leftmost: no match starts between `q` and the first capture. */
  lemma ScanFirst(s: string, q: nat, p: nat)
    requires q <= p < |s|
    requires |ScanFrom(s, q)| == 0 || p < ScanFrom(s, q)[0].comma
    ensures MatchAt(s, p).None?
  {
    if NextMatch(s, q).Some? {
      ScanFromSome(s, q, NextMatch(s, q).value);
    }
    NextMatchFirst(s, q, p);
  }

  /** The scan misses nothing: every position where a match starts lies inside a capture. */
  lemma {:induction false} ScanCovers(s: string, q: nat, p: nat) returns (k: nat)
    requires q <= p < |s| && MatchAt(s, p).Some?
    ensures k < |ScanFrom(s, q)| && ScanFrom(s, q)[k].comma <= p < ScanFrom(s, q)[k].stop
    decreases |s| - q
  {
    NextMatchFinds(s, q, p);
    var c := NextMatch(s, q).value;
    ScanFromSome(s, q, c);
    if p < c.stop {
      k := 0;
      assert ScanFrom(s, q)[0] == c;
    } else {
      var k' := ScanCovers(s, c.stop, p);
      k := k' + 1;
      assert ScanFrom(s, q)[k] == ScanFrom(s, c.stop)[k'];
    }
  }

  /** `el[0]`, the outer group: the clause with its leading comma. */
  function Outer(s: string, c: Capture): string
    requires c.comma <= c.stop <= |s|
  {
    s[c.comma..c.stop]
  }

  /** `el[1]`, the inner group: the clause from the keyword on. */
  function Inner(s: string, c: Capture): string
    requires c.keyword <= c.stop <= |s|
  {
    s[c.keyword..c.stop]
  }

  /** The outer groups of all captures, in order. */
  function Outers(s: string): (r: seq<string>)
    ensures |r| == |Scan(s)|
    ensures forall k :: 0 <= k < |r| ==> r[k] == Outer(s, Scan(s)[k]) && |r[k]| > 0
  {
    var caps := Scan(s);
    seq(|caps|, k requires 0 <= k < |caps| => Outer(s, caps[k]))
  }

  /** The inner groups of all captures, in order. */
  function Inners(s: string): (r: seq<string>)
    ensures |r| == |Scan(s)|
    ensures forall k :: 0 <= k < |r| ==> r[k] == Inner(s, Scan(s)[k])
  {
    var caps := Scan(s);
    seq(|caps|, k requires 0 <= k < |caps| => Inner(s, caps[k]))
  }

  /**
   * Every capture has the shape the pattern promises: the outer group starts with a comma,
   * nothing between that comma and the keyword is an upper-case letter or `)`, the inner
   * group starts with the keyword, holds no newline or comma, and ends the outer group.
   */
  lemma ScanShape(s: string, k: nat)
    requires k < |Scan(s)|
    ensures var c := Scan(s)[k];
      && Outer(s, c)[0] == ','
      && (forall i :: 0 < i < c.keyword - c.comma ==> !IsUpper(Outer(s, c)[i]) && Outer(s, c)[i] != ')')
      && Inner(s, c)[..|Keyword|] == Keyword
      && ',' !in Inner(s, c) && '\n' !in Inner(s, c)
      && Outer(s, c)[c.keyword - c.comma..] == Inner(s, c)
  {
    var c := Scan(s)[k];
    ScanRegex(s, 0, k);
    CaptureShape(s, c.comma, c.keyword, c.stop);
  }

  lemma CaptureShape(s: string, p: nat, j: nat, e: nat)
    requires RegexMatch(s, p, j, e)
    ensures var outer, inner := s[p..e], s[j..e];
      && outer[0] == ','
      && (forall i :: 0 < i < j - p ==> !IsUpper(outer[i]) && outer[i] != ')')
      && inner[..|Keyword|] == Keyword
      && ',' !in inner && '\n' !in inner
      && outer[j - p..] == inner
  {
    var inner := s[j..e];
    InnerClean(s, j, e);
    assert inner[..|Keyword|] == s[j..j + |Keyword|];
    forall i | 0 < i < j - p ensures !IsUpper(s[p..e][i]) && s[p..e][i] != ')' {
      assert s[p..e][i] == s[p + i];
      AllInAt(s, p + 1, j, NotUpperOrParen, p + i);
    }
  }

  /** The inner group holds no comma and no newline. */
  lemma InnerClean(s: string, j: nat, e: nat)
    requires j + |Keyword| <= e <= |s|
    requires s[j..j + |Keyword|] == Keyword
    requires AllIn(s, j + |Keyword|, e, NotNewlineOrComma)
    ensures ',' !in s[j..e] && '\n' !in s[j..e]
  {
    forall i | 0 <= i < e - j ensures s[j..e][i] != ',' && s[j..e][i] != '\n' {
      if i < |Keyword| {
        assert s[j..e][i] == Keyword[i];
      } else {
        AllInAt(s, j + |Keyword|, e, NotNewlineOrComma, j + i);
      }
    }
  }

  /** A copy of the text of a match is a match. */
  lemma CopyMatches(s: string, p: nat, j: nat, e: nat, q: nat)
    requires RegexMatch(s, p, j, e)
    requires q + (e - p) <= |s| && s[q..q + (e - p)] == s[p..e]
    ensures RegexMatch(s, q, q + (j - p), q + (e - p))
  {
    var n, o := e - p, j - p;
    assert s[q] == s[q..q + n][0] == s[p..e][0] == s[p];
    AllInCopy(s, p, q, n, 1, o, NotUpperOrParen);
    AllInCopy(s, p, q, n, o + |Keyword|, n, NotNewlineOrComma);
    SliceAgree(s, q, p, n, o, |Keyword|);
  }

  /** A run of a class inside a text has a run of the class at the same place in any copy. */
  lemma AllInCopy(s: string, p: nat, q: nat, n: nat, lo: nat, hi: nat, cls: CharClass)
    requires p + n <= |s| && q + n <= |s| && s[q..q + n] == s[p..p + n]
    requires lo <= hi <= n && AllIn(s, p + lo, p + hi, cls)
    ensures AllIn(s, q + lo, q + hi, cls)
  {
    SameChars(s, p, q, n);
    AllInShift(s, p, q, lo, hi, cls);
  }

  /** Equal slices agree character by character. */
  lemma SameChars(s: string, p: nat, q: nat, n: nat)
    requires p + n <= |s| && q + n <= |s| && s[q..q + n] == s[p..p + n]
    ensures forall i :: p <= i < p + n ==> s[i] == s[q + (i - p)]
  {
    forall i | p <= i < p + n ensures s[i] == s[q + (i - p)] {
      assert s[q..q + n][i - p] == s[p..p + n][i - p];
    }
  }

  /** Equal slices agree on every sub-slice. */
  lemma SliceAgree(s: string, a: nat, b: nat, n: nat, o: nat, m: nat)
    requires a + n <= |s| && b + n <= |s| && s[a..a + n] == s[b..b + n]
    requires o + m <= n
    ensures s[a + o..a + o + m] == s[b + o..b + o + m]
  {
    SubSlice(s, a, n, o, m);
    SubSlice(s, b, n, o, m);
  }

  /** No inner group holds a comma. */
  lemma InnersNoComma(s: string)
    ensures forall k :: 0 <= k < |Inners(s)| ==> ',' !in Inners(s)[k]
  {
    forall k | 0 <= k < |Inners(s)| ensures ',' !in Inners(s)[k] {
      InnerOfScanClean(s, k);
    }
  }

  /** The inner group of the `k`-th capture holds no comma. */
  lemma InnerOfScanClean(s: string, k: nat)
    requires k < |Scan(s)|
    ensures ',' !in Inners(s)[k]
  {
    var c := Scan(s)[k];
    ScanRegex(s, 0, k);
    InnerClean(s, c.keyword, c.stop);
    assert Inners(s)[k] == s[c.keyword..c.stop];
  }

  /**
   * A composite key is cut at its first column: `[^\n,]*` stops at the comma inside the
   * parentheses, so the clause captured is `CONSTRAINT k FOREIGN KEY (a` and the rest of the
   * column list stays behind in the schema.
   */
  lemma ScanCutsCompositeKey()
    ensures Scan("," + Keyword + " k FOREIGN KEY (a" + ",b)") == [Capture(0, 1, 28)]
    ensures Inners("," + Keyword + " k FOREIGN KEY (a" + ",b)") == [Keyword + " k FOREIGN KEY (a"]
    ensures var s := "," + Keyword + " k FOREIGN KEY (a" + ",b)"; StripAll(s, Outers(s)) == ",b)"
  {
    var s := "," + Keyword + " k FOREIGN KEY (a" + ",b)";
    ClauseStopsAtComma(" k FOREIGN KEY (a", ",b)");
    CompositeKeyRest();
    ScanFromSome(s, 0, Capture(0, 1, 28));
    assert Scan(s) == [Capture(0, 1, 28)];
    assert Inners(s)[0] == s[1..28];
    assert s[1..28] == Keyword + " k FOREIGN KEY (a";
    var outer := s[..28];
    assert Outers(s) == [outer];
    assert s == outer + ",b)";
    assert Gsub(s, outer) == Gsub(",b)", outer) == ",b)";
    assert StripAll(s, [outer]) == StripAll(",b)", []);
  }

  /** The rest of the example, `,b)`, holds no match: `)` comes before any keyword could. */
  lemma CompositeKeyRest()
    ensures NextMatch("," + Keyword + " k FOREIGN KEY (a" + ",b)", 28).None?
  {
    var s := "," + Keyword + " k FOREIGN KEY (a" + ",b)";
    assert s[28] == ',' && s[29] == 'b' && s[30] == ')' && |s| == 31;
    assert MatchAt(s, 28).None? by {
      assert SpanEnd(s, 29, NotUpperOrParen) == 30;
    }
    assert NextMatch(s, 30).None? && NextMatch(s, 29).None?;
  }

  /**
   * A clause that starts right after the comma runs to the next comma (or newline), whatever
   * follows that comma.
   */
  lemma ClauseStopsAtComma(tail: string, rest: string)
    requires ',' !in tail && '\n' !in tail && |rest| > 0 && rest[0] == ','
    ensures MatchAt("," + Keyword + tail + rest, 0) == Some(Capture(0, 1, 1 + |Keyword| + |tail|))
  {
    var s := "," + Keyword + tail + rest;
    var e := 1 + |Keyword| + |tail|;
    assert s[1..1 + |Keyword|] == Keyword;
    assert s[1 + |Keyword|..e] == tail;
    assert s[e] == ',';
    AllInOf(s, 1 + |Keyword|, e, NotNewlineOrComma);
    SpanEndUnique(s, 1 + |Keyword|, e, NotNewlineOrComma);
  }

  /** A range whose characters are all in the class is a run of the class. */
  lemma {:induction false} AllInOf(s: string, lo: nat, hi: nat, cls: CharClass)
    requires lo <= hi <= |s|
    requires forall ch :: ch in s[lo..hi] ==> InClass(cls, ch)
    ensures AllIn(s, lo, hi, cls)
    decreases hi - lo
  {
    if lo < hi {
      assert s[lo] in s[lo..hi];
      assert forall ch :: ch in s[lo + 1..hi] ==> ch in s[lo..hi];
      AllInOf(s, lo + 1, hi, cls);
    }
  }

  /**
   * The loop `constraints.each { |el| schema.gsub!(el[0], '') }` as a function: delete every
   * occurrence of each pattern in turn from the text as it stands after the previous ones.
   */
  function StripAll(s: string, pats: seq<string>): (r: string)
    requires forall k :: 0 <= k < |pats| ==> |pats[k]| > 0
    ensures |r| <= |s|
    decreases |pats|
  {
    if |pats| == 0 then s else StripAll(Gsub(s, pats[0]), pats[1..])
  }

  /**
   * The first `gsub!` cuts the first clause out where it stands: everything before it is kept
   * verbatim (no copy of the clause can start earlier, since that would be an earlier match).
   */
  lemma StripFirstClause(s: string)
    requires |Scan(s)| > 0
    ensures var c := Scan(s)[0];
      Gsub(s, Outer(s, c)) == s[..c.comma] + Gsub(s[c.stop..], Outer(s, c))
  {
    var c := Scan(s)[0];
    var pat := Outer(s, c);
    assert s == s[..c.comma] + pat + s[c.stop..];
    forall q | 0 <= q < c.comma ensures !OccursAt(s, pat, q) {
      NoEarlierCopy(s, q);
    }
    GsubFirst(s[..c.comma], pat, s[c.stop..]);
  }

  /** No copy of the first clause starts before it: that copy would be an earlier match. */
  lemma NoEarlierCopy(s: string, q: nat)
    requires |Scan(s)| > 0 && q < Scan(s)[0].comma
    ensures !OccursAt(s, Outer(s, Scan(s)[0]), q)
  {
    var c := Scan(s)[0];
    ScanRegex(s, 0, 0);
    ScanFirst(s, 0, q);
    NoCopyWhereNoMatch(s, c.comma, c.keyword, c.stop, q);
  }

  /** Where no match starts, no copy of a match's text starts either. */
  lemma NoCopyWhereNoMatch(s: string, p: nat, j: nat, e: nat, q: nat)
    requires RegexMatch(s, p, j, e) && MatchAt(s, q).None?
    ensures !OccursAt(s, s[p..e], q)
  {
    if OccursAt(s, s[p..e], q) {
      CopyMatches(s, p, j, e, q);
      MatchAtSpec(s, q, q + (j - p), q + (e - p));
    }
  }

  const DisableChecks := "/*!40014 SET @OLD_UNIQUE_CHECKS=@@UNIQUE_CHECKS, UNIQUE_CHECKS=0 */;\n"
    + "/*!40014 SET @OLD_FOREIGN_KEY_CHECKS=@@FOREIGN_KEY_CHECKS, FOREIGN_KEY_CHECKS=0 */;\n"

  const RestoreChecks := "/*!40014 SET FOREIGN_KEY_CHECKS=@OLD_FOREIGN_KEY_CHECKS */;\n"
    + "/*!40014 SET UNIQUE_CHECKS=@OLD_UNIQUE_CHECKS */;"

  /** The separator between two `ADD` clauses. */
  const AddSep := ",\n ADD "

  /** The `ALTER TABLE` statement without its terminating `;`. */
  function Alter(table: string, inners: seq<string>): string
  {
    "ALTER TABLE " + table + " ADD " + Join(inners, AddSep)
  }

  /** The text written to `<table>_constraints.sql`. */
  function Script(table: string, inners: seq<string>): string
  {
    DisableChecks + Alter(table, inners) + ";\n" + RestoreChecks
  }

  /**
   * The statement is `ALTER TABLE <table> ADD ` followed by the clause list, and the clause
   * list, split at commas, has one piece per clause: the first is `<clause 0>`, each other one
   * `\n ADD <clause k>`. So there is one `ADD` per clause, whatever the table's name.
   */
  lemma AlterClauses(table: string, inners: seq<string>)
    requires |inners| > 0 && forall k :: 0 <= k < |inners| ==> ',' !in inners[k]
    ensures Alter(table, inners) == "ALTER TABLE " + table + " ADD " + Join(inners, AddSep)
    ensures var parts := SplitComma(Join(inners, AddSep));
      && |parts| == |inners|
      && parts[0] == inners[0]
      && forall k :: 0 < k < |parts| ==> parts[k] == "\n ADD " + inners[k]
  {
    assert AddSep == "," + "\n ADD ";
    SplitJoin("", inners, "\n ADD ");
    assert "" + Join(inners, AddSep) == Join(inners, AddSep);
  }

  /** For a dump with constraint clauses, the script adds back exactly the captured clauses. */
  lemma ScriptClauses(table: string, s: string)
    requires |Scan(s)| > 0
    ensures Script(table, Inners(s))
      == DisableChecks + "ALTER TABLE " + table + " ADD " + Join(Inners(s), AddSep) + ";\n" + RestoreChecks
    ensures var parts := SplitComma(Join(Inners(s), AddSep));
      && |parts| == |Scan(s)|
      && parts[0] == Inner(s, Scan(s)[0])
      && forall k :: 0 < k < |parts| ==> parts[k] == "\n ADD " + Inner(s, Scan(s)[k])
  {
    var inners := Inners(s);
    InnersNoComma(s);
    AlterClauses(table, inners);
    var parts := SplitComma(Join(inners, AddSep));
    forall k | 0 < k < |parts| ensures parts[k] == "\n ADD " + Inner(s, Scan(s)[k]) {
      assert inners[k] == Inner(s, Scan(s)[k]);
    }
  }

  /**
   * Lines 130-148 for one table, given the dump output `dump`: when the pattern matches,
   * every outer group is deleted from the schema and the constraints script is produced;
   * otherwise the schema is the dump output untouched and no constraints file is written.
   */
  method ExtractConstraints(table: string, dump: string) returns (schema: string, script: Option<string>)
    ensures script.None? <==> |Scan(dump)| == 0
    ensures |Scan(dump)| == 0 ==> schema == dump
    ensures |Scan(dump)| > 0 ==> schema == StripAll(dump, Outers(dump))
    ensures |Scan(dump)| > 0 ==> script == Some(Script(table, Inners(dump)))
    ensures |schema| <= |dump|
  {
    schema := dump;
    var constraints := Scan(dump);
    if |constraints| > 0 {
      var outers := Outers(dump);
      var i := 0;
      while i < |constraints|
        invariant 0 <= i <= |constraints|
        invariant StripAll(schema, outers[i..]) == StripAll(dump, outers)
      {
        assert outers[i..][1..] == outers[i + 1..];
        schema := Gsub(schema, Outer(dump, constraints[i]));
        i := i + 1;
      }
      assert outers[i..] == [];
      script := Some(Script(table, Inners(dump)));
    } else {
      script := None;
    }
  }
}
