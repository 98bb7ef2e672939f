/**
 * How the load phase learns which tables to restore: every schema file path found in
 * the backup directory is matched against `/\/(.*)_schema.sql/`, the first group is taken as the
 * table name, and the names are sorted.
 */
module LoadTables {
  import opened Wrappers

  /** The file-name suffix written for every table's schema, `_schema.sql`. */
  const SchemaSuffix := "_schema.sql"

  /** The path of a table's schema file in the backup directory. */
  function SchemaPath(dir: string, table: string): string
  {
    dir + "/" + table + SchemaSuffix
  }

  /** The schema paths of the given tables, in order (what the directory glob finds). */
  function SchemaPaths(dir: string, tables: seq<string>): (paths: seq<string>)
    ensures |paths| == |tables|
    ensures forall k :: 0 <= k < |tables| ==> paths[k] == SchemaPath(dir, tables[k])
  {
    seq(|tables|, k requires 0 <= k < |tables| => SchemaPath(dir, tables[k]))
  }

  // ----- The regular expression /\/(.*)_schema.sql/ -----

  /** No newline in `s[lo..hi]`: the text `.` may run over. */
  predicate NoNewline(s: string, lo: nat, hi: nat)
    requires lo <= hi <= |s|
  {
    forall j :: lo <= j < hi ==> s[j] != '\n'
  }

  /** `_schema.sql` matches at `k`, the `.` standing for any character but a newline. */
  predicate SuffixAt(s: string, k: nat)
  {
    && k + |SchemaSuffix| <= |s|
    && s[k..k + 7] == "_schema"
    && s[k + 7] != '\n'
    && s[k + 8..k + |SchemaSuffix|] == "sql"
  }

  /**
   * The pattern matches with the slash at `i` and the group `(.*)` ending at `k`: the group is
   * `s[i + 1..k]` and the suffix follows it.
   */
  predicate NameMatch(s: string, i: nat, k: nat)
  {
    && i < k <= |s|
    && s[i] == '/'
    && NoNewline(s, i + 1, k)
    && SuffixAt(s, k)
  }

  /** Where `.*` stops when it runs as far as it can from `i`: the next newline, or the end. */
  function LineEnd(s: string, i: nat): (e: nat)
    requires i <= |s|
    ensures i <= e <= |s| && NoNewline(s, i, e)
    ensures e == |s| || s[e] == '\n'
    decreases |s| - i
  {
    if i == |s| || s[i] == '\n' then i else LineEnd(s, i + 1)
  }

  /** Backtracking: the last position in `[lo, k]` where the suffix matches. */
  function Back(s: string, lo: nat, k: nat): (r: Option<nat>)
    requires lo <= k
    ensures r.Some? ==> lo <= r.value <= k && SuffixAt(s, r.value)
    decreases k - lo
  {
    if SuffixAt(s, k) then Some(k)
    else if k == lo then None
    else Back(s, lo, k - 1)
  }

  /** `Back` finds the last suffix position: no later one is missed. */
  lemma {:induction false} BackGreatest(s: string, lo: nat, k: nat, k': nat)
    requires lo <= k' <= k && SuffixAt(s, k')
    ensures Back(s, lo, k).Some? && k' <= Back(s, lo, k).value
    decreases k - lo
  {
    if !SuffixAt(s, k) {
      BackGreatest(s, lo, k - 1, k');
    }
  }

  /** The attempt with the slash at `i`: greedy `.*`, then backtrack to the last suffix. */
  function NameAt(s: string, i: nat): (r: Option<nat>)
    requires i < |s|
    ensures r.Some? ==> s[i] == '/' && NameMatch(s, i, r.value)
  {
    if s[i] != '/' then None
    else
      var e := LineEnd(s, i + 1);
      var r := Back(s, i + 1, e);
      if r.Some? then
        assert NoNewline(s, i + 1, r.value) by {
          forall j | i + 1 <= j < r.value ensures s[j] != '\n' {
            assert j < e;
          }
        }
        r
      else None
  }

  /** The attempt at `i` is greedy: it ends the group at the last place a match could end it. */
  lemma NameAtGreedy(s: string, i: nat, k: nat)
    requires NameMatch(s, i, k)
    ensures NameAt(s, i).Some? && k <= NameAt(s, i).value
  {
    var e := LineEnd(s, i + 1);
    BackGreatest(s, i + 1, e, k);
  }

  /** The leftmost slash at or after `q` from which the pattern matches. */
  function NameStart(s: string, q: nat): (r: Option<nat>)
    requires q <= |s|
    ensures r.Some? ==> q <= r.value < |s| && NameAt(s, r.value).Some?
    decreases |s| - q
  {
    if q == |s| then None
    else if NameAt(s, q).Some? then Some(q)
    else NameStart(s, q + 1)
  }

  /** Any match starting at `p` means the search from an earlier `q` stops at or before `p`. */
  lemma {:induction false} NameStartFinds(s: string, q: nat, p: nat, k: nat)
    requires q <= p && NameMatch(s, p, k)
    ensures NameStart(s, q).Some? && NameStart(s, q).value <= p
    decreases |s| - q
  {
    if NameAt(s, q).None? {
      if q == p {
        NameAtGreedy(s, p, k);
      }
      NameStartFinds(s, q + 1, p, k);
    }
  }

  /**
   * `file.match(/\/(.*)_schema.sql/)[1]` as the code is written: the group of the leftmost,
   * greedy match, or `None` where `match` gives nil.
   */
  function TableName(path: string): (r: Option<string>)
    ensures r.Some? ==> '\n' !in r.value && |r.value| + |SchemaSuffix| < |path|
  {
    match NameStart(path, 0)
    case None => None
    case Some(i) =>
      var k := NameAt(path, i).value;
      var name := path[i + 1..k];
      assert forall j :: 0 <= j < |name| ==> name[j] == path[i + 1 + j];
      Some(name)
  }

  /** A name found is the group of a match of the pattern. */
  lemma TableNameSound(path: string) returns (i: nat, k: nat)
    requires TableName(path).Some?
    ensures NameMatch(path, i, k) && TableName(path) == Some(path[i + 1..k])
  {
    i := NameStart(path, 0).value;
    k := NameAt(path, i).value;
  }

  /**
   * The name is the leftmost-greedy group: no match starts left of it, and a match starting at
   * the same slash has a group no longer than it.
   */
  lemma TableNameLeftmostGreedy(path: string, p: nat, k: nat)
    requires NameMatch(path, p, k)
    ensures TableName(path).Some?
    ensures var i := NameStart(path, 0).value;
      i <= p && (i == p ==> k - p - 1 <= |TableName(path).value|)
  {
    NameStartFinds(path, 0, p, k);
    NameAtGreedy(path, p, k);
  }

  /**
   * With a directory holding no slash (`-D backups`), the name found in a schema path is the
   * table itself.
   */
  lemma TableNameOfSchemaPath(dir: string, table: string)
    requires '/' !in dir && '\n' !in table
    ensures TableName(SchemaPath(dir, table)) == Some(table)
  {
    var s := SchemaPath(dir, table);
    var i, k := |dir|, |dir| + 1 + |table|;
    SchemaPathMatches(dir, table);
    NameStartFinds(s, 0, i, k);
    assert forall j :: 0 <= j < i ==> s[j] == dir[j];
    assert NameStart(s, 0) == Some(i);
    NameAtGreedy(s, i, k);
    assert NameAt(s, i) == Some(k);
    assert s[i + 1..k] == table;
  }

  /** A schema path matches the pattern from the slash after the directory, ending the group after the table. */
  lemma SchemaPathMatches(dir: string, table: string)
    requires '\n' !in table
    ensures NameMatch(SchemaPath(dir, table), |dir|, |dir| + 1 + |table|)
  {
    var s := SchemaPath(dir, table);
    var i, k := |dir|, |dir| + 1 + |table|;
    assert s[i] == '/';
    assert s[k..] == SchemaSuffix;
    assert s[k..k + 7] == SchemaSuffix[..7];
    assert s[k + 8..k + |SchemaSuffix|] == SchemaSuffix[8..];
    assert NoNewline(s, i + 1, k) by {
      forall j | i + 1 <= j < k ensures s[j] != '\n' {
        assert s[j] == table[j - i - 1];
      }
    }
  }

  /**
   * The quirk: with `-D ./backups` the name picked up for `users` is `backups/users`, because
   * the match starts at the first slash of the path, not the last.
   */
  lemma TableNameKeepsDirectory()
    ensures TableName("./backups/users_schema.sql") == Some("backups/users")
  {
    assert "./backups/users_schema.sql" == SchemaPath(".", "backups/users");
    TableNameOfSchemaPath(".", "backups/users");
  }

  // ----- The evidently intended name: the file's base name without the suffix -----

  /** The text after the last slash of `s` (all of `s` if it has none). */
  function AfterLastSlash(s: string): (r: string)
    ensures '/' !in r && |r| <= |s| && r == s[|s| - |r|..]
    ensures |r| == |s| || s[|s| - |r| - 1] == '/'
  {
    if |s| == 0 || s[|s| - 1] == '/' then []
    else AfterLastSlash(s[..|s| - 1]) + [s[|s| - 1]]
  }

  /** The base name is the last path component. */
  lemma {:induction false} AfterLastSlashOf(dir: string, name: string)
    requires '/' !in name
    ensures AfterLastSlash(dir + "/" + name) == name
    decreases |name|
  {
    var s := dir + "/" + name;
    if |name| > 0 {
      var init := name[..|name| - 1];
      assert s[..|s| - 1] == dir + "/" + init;
      assert '/' !in init by {
        forall j | 0 <= j < |init| ensures init[j] != '/' {
          assert init[j] == name[j];
        }
      }
      AfterLastSlashOf(dir, init);
      assert name == init + [name[|name| - 1]];
    } else {
      assert s[|s| - 1] == '/';
    }
  }

  /** The table name as intended: the schema file's base name without `_schema.sql`. */
  function BaseTableName(path: string): (r: Option<string>)
    ensures r.Some? <==> |path| >= |SchemaSuffix| && path[|path| - |SchemaSuffix|..] == SchemaSuffix
    ensures r.Some? ==> '/' !in r.value && |r.value| + |SchemaSuffix| <= |path|
    ensures r.Some? ==> path[|path| - |SchemaSuffix| - |r.value|..] == r.value + SchemaSuffix
    ensures r.Some? ==>
      |r.value| + |SchemaSuffix| == |path| || path[|path| - |SchemaSuffix| - |r.value| - 1] == '/'
  {
    if |path| >= |SchemaSuffix| && path[|path| - |SchemaSuffix|..] == SchemaSuffix then
      Some(AfterLastSlash(path[..|path| - |SchemaSuffix|]))
    else None
  }

  /** The intended name gives back every table from its schema path, whatever the directory. */
  lemma BaseTableNameOfSchemaPath(dir: string, table: string)
    requires '/' !in table
    ensures BaseTableName(SchemaPath(dir, table)) == Some(table)
  {
    var s := SchemaPath(dir, table);
    assert s[|s| - |SchemaSuffix|..] == SchemaSuffix;
    assert s[..|s| - |SchemaSuffix|] == dir + "/" + table;
    AfterLastSlashOf(dir, table);
  }

  /** Where the quirk bites, the intended name is the table itself. */
  lemma BaseTableNameDropsDirectory()
    ensures BaseTableName("./backups/users_schema.sql") == Some("users")
  {
    assert "./backups/users_schema.sql" == SchemaPath("./backups", "users");
    BaseTableNameOfSchemaPath("./backups", "users");
  }

  // ----- Ruby's `String#<=>` and `sort!` -----

  /** Lexicographic order on code points, as `String#<=>` orders strings. */
  predicate LexLe(a: string, b: string)
  {
    |a| == 0 || (|b| > 0 && (a[0] < b[0] || (a[0] == b[0] && LexLe(a[1..], b[1..]))))
  }

  lemma {:induction false} LexTotal(a: string, b: string)
    ensures LexLe(a, b) || LexLe(b, a)
    decreases |a|
  {
    if |a| > 0 && |b| > 0 && a[0] == b[0] {
      LexTotal(a[1..], b[1..]);
    }
  }

  lemma {:induction false} LexAntisymmetric(a: string, b: string)
    requires LexLe(a, b) && LexLe(b, a)
    ensures a == b
    decreases |a|
  {
    if |a| > 0 {
      LexAntisymmetric(a[1..], b[1..]);
      assert a == [a[0]] + a[1..] && b == [b[0]] + b[1..];
    }
  }

  lemma {:induction false} LexTransitive(a: string, b: string, c: string)
    requires LexLe(a, b) && LexLe(b, c)
    ensures LexLe(a, c)
    decreases |a|
  {
    if |a| > 0 && a[0] == b[0] && b[0] == c[0] {
      LexTransitive(a[1..], b[1..], c[1..]);
    }
  }

  /** In order by `<=>`. */
  predicate Sorted(xs: seq<string>)
  {
    forall i, j :: 0 <= i < j < |xs| ==> LexLe(xs[i], xs[j])
  }

  /** Insert `x` into a sorted list before the first element it does not follow. */
  function Insert(x: string, xs: seq<string>): (r: seq<string>)
    ensures multiset(r) == multiset(xs) + multiset{x}
  {
    if |xs| == 0 then [x]
    else if LexLe(x, xs[0]) then [x] + xs
    else
      assert xs == [xs[0]] + xs[1..];
      [xs[0]] + Insert(x, xs[1..])
  }

  /** A list with a head below every element of a sorted tail is sorted. */
  lemma SortedCons(h: string, t: seq<string>)
    requires Sorted(t) && forall y :: y in t ==> LexLe(h, y)
    ensures Sorted([h] + t)
  {
    var r := [h] + t;
    forall i, j | 0 <= i < j < |r| ensures LexLe(r[i], r[j]) {
      if i == 0 {
        assert r[j] == t[j - 1];
      } else {
        assert r[i] == t[i - 1] && r[j] == t[j - 1];
      }
    }
  }

  /** Inserting into a sorted list keeps it sorted. */
  lemma {:induction false} InsertSorted(x: string, xs: seq<string>)
    requires Sorted(xs)
    ensures Sorted(Insert(x, xs))
  {
    if |xs| == 0 {
    } else if LexLe(x, xs[0]) {
      forall y | y in xs ensures LexLe(x, y) {
        SortedHeadLeast(xs, y);
        LexTransitive(x, xs[0], y);
      }
      SortedCons(x, xs);
    } else {
      LexTotal(x, xs[0]);
      var tail := Insert(x, xs[1..]);
      assert Sorted(xs[1..]);
      InsertSorted(x, xs[1..]);
      forall y | y in tail ensures LexLe(xs[0], y) {
        assert y in multiset(tail);
        if y != x {
          assert y in xs;
          SortedHeadLeast(xs, y);
        }
      }
      SortedCons(xs[0], tail);
    }
  }

  /** `tables.sort!` as a function: insertion sort by `<=>`. */
  function Sort(xs: seq<string>): (r: seq<string>)
    ensures multiset(r) == multiset(xs) && |r| == |xs|
  {
    if |xs| == 0 then []
    else
      assert xs == [xs[0]] + xs[1..];
      Insert(xs[0], Sort(xs[1..]))
  }

  /** The sort's result is in order. */
  lemma {:induction false} SortSorted(xs: seq<string>)
    ensures Sorted(Sort(xs))
  {
    if |xs| > 0 {
      SortSorted(xs[1..]);
      InsertSorted(xs[0], Sort(xs[1..]));
    }
  }

  lemma {:induction false} LexReflexive(a: string)
    ensures LexLe(a, a)
    decreases |a|
  {
    if |a| > 0 {
      LexReflexive(a[1..]);
    }
  }

  /** The head of a sorted list comes before every element of it. */
  lemma SortedHeadLeast(a: seq<string>, x: string)
    requires Sorted(a) && x in a
    ensures LexLe(a[0], x)
  {
    var i :| 0 <= i < |a| && a[i] == x;
    if i == 0 {
      LexReflexive(x);
    }
  }

  /** Splitting off the head of a list splits its multiset the same way. */
  lemma MultisetHead(a: seq<string>)
    requires |a| > 0
    ensures multiset(a[1..]) == multiset(a) - multiset{a[0]}
  {
    assert a == [a[0]] + a[1..];
  }

  /** A sorted list is determined by its elements: the order of the input does not matter. */
  lemma {:induction false} SortedUnique(a: seq<string>, b: seq<string>)
    requires Sorted(a) && Sorted(b) && multiset(a) == multiset(b)
    ensures a == b
    decreases |a|
  {
    assert |a| == |multiset(a)| == |b|;
    if |a| > 0 {
      assert b[0] in multiset(a) && a[0] in multiset(b);
      SortedHeadLeast(a, b[0]);
      SortedHeadLeast(b, a[0]);
      LexAntisymmetric(a[0], b[0]);
      MultisetHead(a);
      MultisetHead(b);
      SortedUnique(a[1..], b[1..]);
      assert a == [a[0]] + a[1..] && b == [b[0]] + b[1..];
    }
  }

  // ----- The load's table list -----

  /** Why the table list cannot be had. */
  datatype LoadError =
    | NoMatch(path: string)   // `match` gave nil and `match[1]` raises
    | NoTables                // "No tables to dump"

  /** The name of each path in turn; the first path without one stops the map. */
  function Names(paths: seq<string>, nameOf: string -> Option<string>): (r: Result<seq<string>, string>)
    ensures r.Ok? <==> forall p :: p in paths ==> nameOf(p).Some?
    ensures r.Ok? ==> |r.value| == |paths|
    ensures r.Ok? ==> forall k :: 0 <= k < |paths| ==> nameOf(paths[k]) == Some(r.value[k])
    ensures r.Err? ==> r.error in paths && nameOf(r.error).None?
  {
    if |paths| == 0 then Ok([])
    else if nameOf(paths[0]).None? then Err(paths[0])
    else match Names(paths[1..], nameOf)
      case Err(p) => Err(p)
      case Ok(rest) =>
        assert forall p :: p in paths ==> p == paths[0] || p in paths[1..];
        Ok([nameOf(paths[0]).value] + rest)
  }

  /**
   * Lines 166-176: map each schema path to its name, give up when there are none, sort. The
   * script uses `TableName`; passing `BaseTableName` gives the intended behaviour.
   */
  function DeriveTables(paths: seq<string>, nameOf: string -> Option<string>): (r: Result<seq<string>, LoadError>)
    ensures r == Err(NoTables) <==> |paths| == 0
    ensures (r.Err? && r.error.NoMatch?) <==> exists p :: p in paths && nameOf(p).None?
    ensures r.Err? && r.error.NoMatch? ==> r.error.path in paths && nameOf(r.error.path).None?
    ensures r.Ok? ==> Names(paths, nameOf).Ok?
    ensures r.Ok? ==> multiset(r.value) == multiset(Names(paths, nameOf).value)
    ensures r.Ok? ==> Sorted(r.value) && |r.value| == |paths|
  {
    match Names(paths, nameOf)
    case Err(p) => Err(NoMatch(p))
    case Ok(names) =>
      if |names| == 0 then Err(NoTables)
      else
        SortSorted(names);
        Ok(Sort(names))
  }

  /** The names of the schema paths of `tables` are `tables`, whenever each is named right. */
  lemma NamesOfSchemaPaths(dir: string, tables: seq<string>, nameOf: string -> Option<string>)
    requires forall t :: t in tables ==> nameOf(SchemaPath(dir, t)) == Some(t)
    ensures Names(SchemaPaths(dir, tables), nameOf) == Ok(tables)
  {
    var paths := SchemaPaths(dir, tables);
    forall p | p in paths ensures nameOf(p).Some? {
      var k :| 0 <= k < |paths| && paths[k] == p;
      assert tables[k] in tables;
    }
    var names := Names(paths, nameOf).value;
    forall k | 0 <= k < |tables| ensures names[k] == tables[k] {
      assert tables[k] in tables;
      assert nameOf(paths[k]) == Some(names[k]);
    }
    assert names == tables;
  }

  /**
   * Round trip, as written: a backup made into a slash-free directory loads every table it
   * dumped, in sorted order.
   */
  lemma DeriveTablesRoundTrip(dir: string, tables: seq<string>)
    requires |tables| > 0 && '/' !in dir
    requires forall t :: t in tables ==> '\n' !in t
    ensures DeriveTables(SchemaPaths(dir, tables), TableName) == Ok(Sort(tables))
  {
    forall t | t in tables ensures TableName(SchemaPath(dir, t)) == Some(t) {
      TableNameOfSchemaPath(dir, t);
    }
    NamesOfSchemaPaths(dir, tables, TableName);
  }

  /** Round trip, as intended: any directory works. */
  lemma DeriveTablesBaseRoundTrip(dir: string, tables: seq<string>)
    requires |tables| > 0
    requires forall t :: t in tables ==> '/' !in t
    ensures DeriveTables(SchemaPaths(dir, tables), BaseTableName) == Ok(Sort(tables))
  {
    forall t | t in tables ensures BaseTableName(SchemaPath(dir, t)) == Some(t) {
      BaseTableNameOfSchemaPath(dir, t);
    }
    NamesOfSchemaPaths(dir, tables, BaseTableName);
  }

  /** Naming a concatenation of named paths names each part. */
  lemma NamesAppend(x: seq<string>, y: seq<string>, nameOf: string -> Option<string>)
    requires forall p :: p in x + y ==> nameOf(p).Some?
    ensures Names(x, nameOf).Ok? && Names(y, nameOf).Ok? && Names(x + y, nameOf).Ok?
    ensures Names(x + y, nameOf).value == Names(x, nameOf).value + Names(y, nameOf).value
  {
    assert forall p :: p in x ==> p in x + y;
    assert forall p :: p in y ==> p in x + y;
    var nx, ny, nxy := Names(x, nameOf).value, Names(y, nameOf).value, Names(x + y, nameOf).value;
    forall k | 0 <= k < |nxy| ensures nxy[k] == (nx + ny)[k] {
      if k < |x| {
        assert (x + y)[k] == x[k];
      } else {
        assert (x + y)[k] == y[k - |x|];
      }
    }
  }

  /** Naming a list with one path spliced in names the parts on either side of it. */
  lemma NamesSplice(x: seq<string>, v: string, y: seq<string>, nameOf: string -> Option<string>)
    requires forall p :: p in x + [v] + y ==> nameOf(p).Some?
    ensures Names(x + [v] + y, nameOf).Ok? && Names(x + y, nameOf).Ok?
    ensures Names(x + [v] + y, nameOf).value
      == Names(x, nameOf).value + [nameOf(v).value] + Names(y, nameOf).value
    ensures Names(x + y, nameOf).value == Names(x, nameOf).value + Names(y, nameOf).value
  {
    assert x + [v] + y == x + ([v] + y);
    assert forall p :: p in x + y ==> p in x + [v] + y;
    NamesAppend(x, [v] + y, nameOf);
    NamesAppend([v], y, nameOf);
    NamesAppend(x, y, nameOf);
  }

  /** Taking one element out of a list takes it out of the list's multiset. */
  lemma MultisetSplice(x: seq<string>, v: string, y: seq<string>)
    ensures multiset(x + [v] + y) == multiset(x + y) + multiset{v}
  {
  }

  /** A list is the part before position `i`, the element there, and the part after it. */
  lemma SplitAt(b: seq<string>, i: nat)
    requires i < |b|
    ensures b == b[..i] + [b[i]] + b[i + 1..]
  {
  }

  /** Taking one named path out of a list takes its name out of the names. */
  lemma NamesRemove(b: seq<string>, i: nat, nameOf: string -> Option<string>)
    requires i < |b| && forall p :: p in b ==> nameOf(p).Some?
    ensures Names(b, nameOf).Ok? && Names(b[..i] + b[i + 1..], nameOf).Ok?
    ensures multiset(Names(b, nameOf).value)
      == multiset(Names(b[..i] + b[i + 1..], nameOf).value) + multiset{nameOf(b[i]).value}
  {
    var x, v, y := b[..i], b[i], b[i + 1..];
    SplitAt(b, i);
    NamesSplice(x, v, y, nameOf);
    MultisetSplice(Names(x, nameOf).value, nameOf(v).value, Names(y, nameOf).value);
  }

  /** Lists with the same multiset have the same length and the same elements. */
  lemma SameElements(a: seq<string>, b: seq<string>)
    requires multiset(a) == multiset(b)
    ensures |a| == |b| && forall p :: p in b ==> p in a
  {
    assert forall p :: p in b ==> p in multiset(a);
    assert |a| == |multiset(a)| == |b|;
  }

  /** The head of a list has a place in any reordering, and the rest match once it is taken out. */
  lemma RemoveHead(a: seq<string>, b: seq<string>) returns (i: nat)
    requires multiset(a) == multiset(b) && |a| > 0
    ensures i < |b| && b[i] == a[0]
    ensures multiset(a[1..]) == multiset(b[..i] + b[i + 1..])
  {
    assert a[0] in multiset(b);
    i :| 0 <= i < |b| && b[i] == a[0];
    SplitAt(b, i);
    MultisetSplice(b[..i], b[i], b[i + 1..]);
    MultisetHead(a);
  }

  /** Listing the same named paths in another order names the same tables. */
  lemma {:induction false} NamesPermutation(a: seq<string>, b: seq<string>, nameOf: string -> Option<string>)
    requires multiset(a) == multiset(b)
    requires forall p :: p in a ==> nameOf(p).Some?
    ensures Names(a, nameOf).Ok? && Names(b, nameOf).Ok?
    ensures multiset(Names(a, nameOf).value) == multiset(Names(b, nameOf).value)
    decreases |a|
  {
    SameElements(a, b);
    if |a| > 0 {
      var i := RemoveHead(a, b);
      var rest := b[..i] + b[i + 1..];
      assert forall p :: p in a[1..] ==> p in a;
      NamesPermutation(a[1..], rest, nameOf);
      assert a[..0] + a[1..] == a[1..];
      NamesRemove(a, 0, nameOf);
      NamesRemove(b, i, nameOf);
    }
  }

  /**
   * The order in which the directory lists the files does not change the table list, since
   * `sort!` puts the names in an order fixed by the names alone.
   */
  lemma DeriveTablesOrderFree(a: seq<string>, b: seq<string>, nameOf: string -> Option<string>)
    requires multiset(a) == multiset(b)
    requires forall p :: p in a ==> nameOf(p).Some?
    ensures DeriveTables(a, nameOf) == DeriveTables(b, nameOf)
  {
    NamesPermutation(a, b, nameOf);
    assert |a| == |multiset(a)| == |b|;
    if |a| > 0 {
      var na, nb := Names(a, nameOf).value, Names(b, nameOf).value;
      SortSorted(na);
      SortSorted(nb);
      SortedUnique(Sort(na), Sort(nb));
    }
  }
}
