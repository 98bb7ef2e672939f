# sql_dumper core, modelled in Dafny

`dumper.rb` dumps a MySQL database into a backup directory one table at a time. It writes
`<table>_schema.sql`, `<table>_data.sql`, an optional `<table>_constraints.sql` and
`<table>_checksum.dat`. It loads such a directory back and then checks every table against its
checksum. The progress is shown in a curses grid with one status cell per table.

Almost all of the script drives external programs, the terminal and threads. This project
models the deterministic logic inside that orchestration:

- **Options** (`options.dfy`): the start-up checks. Every required option is checked in the
  order `action, username, password, host, db, dir`. Then the action, the backup directory, and
  the `mysql` and `mysqldump` executables are checked. The first failure ends the run.
- **StatusGrid** (`status_grid.dfy`): `colonize_tables` and `table_status`.
  - `colonize_tables` is a method. It cuts the table list into columns of `lines - 2` names and
    computes each column's left edge from the longest name before it. It fills a map from table
    name to cell `(x, y, length)`.
  - `table_status` renders the name followed by the right-justified status.
- **DumpSchema** (`dump_schema.dfy`): the constraint handling of the dump.
  - A hand-written scanner plays `schema.scan(/(,[^A-Z\)]*(CONSTRAINT[^\n,]*))/)`.
  - The `gsub!` loop removes every captured clause from the schema.
  - The deferred `ALTER TABLE … ADD …` script is built between the `SET … CHECKS` lines.
  - As written, `[^\n,]*` stops at the first comma, so a key over several columns is cut at its
    first column and the rest of the column list stays in the schema (`ScanCutsCompositeKey`).
- **Checksums** (`checksums.dfy`): compares the stored `(hash, count)` record with the
  reloaded table and produces the `OK` / `M` / `C` / `MC` status token.
- **LoadTables** (`load_tables.dfy`): derives the table list on load.
  - Each schema path is matched with `/\/(.*)_schema.sql/` (leftmost, greedy, backtracking).
  - The names are sorted with `sort!`, using code-point lexicographic order.
- **RubyString** (`ruby_string.dfy`): the pieces of Ruby's `String` used above. These are
  `rjust`, `join` and `gsub(str, '')` (leftmost, non-overlapping, no rescanning). It also has
  `SplitComma`, a split on commas. The script never splits on commas: this function only reads a
  joined clause list back, to state the round trip of `join`.
- **Wrappers** (`wrappers.dfy`): `Option` and `Result`.

The terminal height, the directory test, the `which` results and MD5 are parameters.

## Model

| member | source | states |
|---|---|---|
| Options.AllGiven | dumper.rb:40-45 | When every required option is given, `action` and `dir` are among the options, so the later checks can read them |
| Options.CheckOptions | dumper.rb:40-64 | A missing or empty option is reported iff one exists, and the key reported is the first absent one in checking order. Each later error (bad action, no directory, no `mysql`, no `mysqldump`) happens iff every earlier check passed and this one fails. `Ok(Dump)` / `Ok(Load)` iff all checks pass with that action |
| RubyString.RJust | dumper.rb:81 | `rjust` pads on the left with spaces up to the width. The result ends with the original string and is never shorter than it |
| RubyString.Gsub | dumper.rb:134 | Deleting a pattern never lengthens the text |
| RubyString.GsubAbsent | dumper.rb:134 | `gsub!` leaves text without any occurrence unchanged |
| RubyString.GsubFirst | dumper.rb:134 | If no occurrence starts before `a + pat`'s `pat`, deletion keeps `a` verbatim and continues after the occurrence |
| RubyString.Join | dumper.rb:138 | Definition of `join`: the items with the separator between each neighbouring pair. `SplitJoin` states its round trip |
| RubyString.SplitJoin | dumper.rb:138 | Splitting `lead + join(xs, "," + rest)` on commas gives back one part per element: `lead + xs[0]`, then `rest + xs[k]` |
| StatusGrid.Slices | dumper.rb:87 | Definition of `each_slice`'s groups: the first `size` names, then the slices of the rest. The last group takes what remains. `SlicesShape` states their shape |
| StatusGrid.EachSlice | dumper.rb:87 | The `each_slice` loop collects exactly the slices `Slices(tables, size)` |
| StatusGrid.SlicesShape | dumper.rb:85-87 | Columns are non-empty and at most `size` long, and every column but the last is full. There are `ceil(N / size)` of them, and concatenated they give back the table list |
| StatusGrid.SlicesConcat | dumper.rb:87 | The columns concatenated are the table list |
| StatusGrid.MaxLen | dumper.rb:91 | `vals.map(&:size).max` bounds every name in the column and is reached by one of them |
| StatusGrid.Left | dumper.rb:86-91 | Definition of `cols_left[c]`: 0 for the first column, then the previous edge plus the previous column's widest name plus 4. `LeftsNext` ties it to the hash and `LeftIncreasing` orders it |
| StatusGrid.CellAt | dumper.rb:94 | Definition of the cell at column `c`, row index `y`: `x = cols_left[c]`, `y + 1`, `length = cols_left[c+1] - cols_left[c] - 1`. `CellInGrid`, `CellsDistinct` and `CellsApart` state its properties |
| StatusGrid.LeftsFirst | dumper.rb:86 | The hash `{0 => 0}` is `cols_left` before any column is measured |
| StatusGrid.LeftsNext | dumper.rb:86-91 | Before column `c` is measured the hash holds `cols_left[c]`. Setting `cols_left[c+1] = cols_left[c] + max + 4` gives the hash one column further on |
| StatusGrid.LeftIncreasing | dumper.rb:91 | A column's left edge plus its widest name plus 4 is at most any later column's left edge, so left edges strictly increase |
| StatusGrid.ColonizeTables | dumper.rb:84-97 | The cell map has exactly the tables as keys. Each table sits at its last position in the column layout, with `x = cols_left[c]`, `y = row + 1` and `length = cols_left[c+1] - cols_left[c] - 1` |
| StatusGrid.PlaceColumn | dumper.rb:93-95 | Filling one column keeps the layout invariant: every name met so far maps to the cell of its latest position |
| StatusGrid.PositionOf | dumper.rb:93-95 | Every table in the map has a position in the layout whose cell it was given |
| StatusGrid.CellInGrid | dumper.rb:94 | Each cell's row is between 1 and `lines - 2`, so row 0 is free for the banner. Each cell is at least three wider than its name |
| StatusGrid.CellsDistinct | dumper.rb:93-95 | Distinct tables get distinct `(x, y)` cells |
| StatusGrid.CellsApart | dumper.rb:91-94 | A cell ends before any cell of a later column begins |
| StatusGrid.TableStatus | dumper.rb:77-82 | The text goes to the table's `(y, x)`. It starts with the table name, is padded with spaces, ends with the status, and has the `rjust` width |
| StatusGrid.StatusFillsCell | dumper.rb:81 | A status of at most three characters gives text exactly as long as the cell, ending flush with the status |
| DumpSchema.SpanEnd | dumper.rb:131 | A character class run stops at the first character outside the class, or at the end |
| DumpSchema.SpanEndLongest | dumper.rb:131 | No run of the class from the same start is longer |
| DumpSchema.SpanEndUnique | dumper.rb:131 | A run that stops at a character outside the class is the run `SpanEnd` finds |
| DumpSchema.MatchAt | dumper.rb:131 | The attempt at a position yields a match of the regular expression starting there |
| DumpSchema.MatchAtSpec | dumper.rb:131 | Every match of the regular expression at a position is found there, with the keyword at the same place and a tail no longer than the one found |
| DumpSchema.NextMatch | dumper.rb:131 | The search from `q` returns the attempt at a position at or after `q` |
| DumpSchema.NextMatchFirst | dumper.rb:131 | No match starts between `q` and the match found, or anywhere after `q` if none is found |
| DumpSchema.NextMatchFinds | dumper.rb:131 | A match at `p` makes the search from any earlier `q` succeed at or before `p` |
| DumpSchema.ScanFrom | dumper.rb:131 | Captures lie inside the text, after the resume point, with the keyword after the comma. They are in order and do not overlap |
| DumpSchema.Scan | dumper.rb:131 | Definition of `schema.scan(...)`: the scan from the start of the text. Its properties are those of `ScanFrom`, `ScanRegex`, `ScanFirst` and `ScanCovers` at position 0 |
| DumpSchema.ScanFromSome | dumper.rb:131 | After a match, `scan` records it and resumes where it ends |
| DumpSchema.ScanRegex | dumper.rb:131 | Every capture is a match of the regular expression |
| DumpSchema.ScanFirst | dumper.rb:131 | No match starts before the first capture |
| DumpSchema.ScanCovers | dumper.rb:131 | Every position where a match could start lies inside some capture |
| DumpSchema.ScanShape | dumper.rb:131 | The outer group starts with a comma, with no capital or `)` before `CONSTRAINT`. The inner group starts with `CONSTRAINT`, holds no comma and no newline, and is a suffix of the outer group |
| DumpSchema.CaptureShape | dumper.rb:131 | The same shape, for any match of the regular expression |
| DumpSchema.InnerClean | dumper.rb:131 | The inner group holds no comma and no newline |
| DumpSchema.CopyMatches | dumper.rb:131-134 | A copy of a clause's text elsewhere in the schema is itself a match |
| DumpSchema.NoEarlierCopy | dumper.rb:133-134 | No copy of the first clause starts before it |
| DumpSchema.StripFirstClause | dumper.rb:133-134 | The first `gsub!` keeps the schema before the first clause verbatim and deletes that clause |
| DumpSchema.Outers | dumper.rb:133-134 | One non-empty outer group per capture, in capture order |
| DumpSchema.Inners | dumper.rb:138 | One inner group per capture, in capture order |
| DumpSchema.InnersNoComma | dumper.rb:138 | No inner group holds a comma |
| DumpSchema.ClauseStopsAtComma | dumper.rb:131 | When `CONSTRAINT` directly follows a comma, the match there ends at the next comma after the keyword, whatever follows that comma |
| DumpSchema.ScanCutsCompositeKey | dumper.rb:131-135 | A composite key is cut at its first column: for `,CONSTRAINT k FOREIGN KEY (a,b)` the only capture is `CONSTRAINT k FOREIGN KEY (a`, and removing it leaves `,b)` in the schema |
| DumpSchema.StripAll | dumper.rb:133-135 | Removing the clauses never lengthens the schema |
| DumpSchema.Alter | dumper.rb:138 | Definition of the statement: `ALTER TABLE <table> ADD ` and the inner groups joined by `",\n ADD "`. `AlterClauses` states its clauses |
| DumpSchema.Script | dumper.rb:136-140 | Definition of the constraints file text: the two `SET …=0` lines, the statement, `;` and a newline, then the two restore lines. `ScriptClauses` states its layout |
| DumpSchema.AlterClauses | dumper.rb:138 | The statement is `ALTER TABLE <table> ADD ` followed by the clause list. The clause list splits on commas into exactly one piece per inner group, in order: the first group, then `\n ADD <group>` for each later one. This holds for every table name |
| DumpSchema.ScriptClauses | dumper.rb:136-140 | For the captures of a dump, the script is the two disabling `SET` lines, `ALTER TABLE <table> ADD ` and the clause list, `;` and a newline, then the two restore lines. The clause list has one `ADD <inner group>` per capture, in capture order |
| DumpSchema.ExtractConstraints | dumper.rb:131-148 | With no captures, no script is produced and the schema is the dump unchanged. Otherwise the schema is the dump with each clause removed in turn, and the script is the `SET` / `ALTER TABLE` / `SET` text over the inner groups. The schema is never longer than the dump |
| Checksums.Record | dumper.rb:154 | Definition of the record the dump writes: the MD5 of the schema text and the count text. `VerifyTable` accepts exactly this record |
| Checksums.Token | dumper.rb:239-252 | The token is `OK` iff both comparisons agree, and has one or two characters |
| Checksums.TokenDecodes | dumper.rb:243-252 | Different comparison outcomes give different tokens, so the token says which checks failed |
| Checksums.VerifyTable | dumper.rb:239-252 | `OK` iff the stored record equals the one the dump would write for the reloaded table. Otherwise `M` appears iff the digests differ and `C` iff the counts differ. The token is one of `OK`, `M`, `C`, `MC` |
| LoadTables.SchemaPaths | dumper.rb:126 | One `<dir>/<table>_schema.sql` path per table, in order |
| LoadTables.LineEnd | dumper.rb:167 | `.*` runs to the next newline or to the end of the path |
| LoadTables.Back | dumper.rb:167 | Backtracking stops at a position where `_schema.sql` matches |
| LoadTables.BackGreatest | dumper.rb:167 | Backtracking stops at the last such position |
| LoadTables.NameAt | dumper.rb:167 | The attempt at a slash yields a match of the pattern |
| LoadTables.NameAtGreedy | dumper.rb:167 | The attempt ends the group at the last place any match from that slash could |
| LoadTables.NameStart | dumper.rb:167 | The search returns a slash from which the pattern matches |
| LoadTables.NameStartFinds | dumper.rb:167 | No matching slash is skipped: a match at `p` makes the search stop at or before `p` |
| LoadTables.TableName | dumper.rb:167-168 | `match[1]` as the script has it: a name found holds no newline and is shorter than the path by more than the `_schema.sql` suffix. `TableNameSound` and `TableNameLeftmostGreedy` state which group it is |
| LoadTables.TableNameSound | dumper.rb:167-168 | A name found is the group of a match of the pattern |
| LoadTables.TableNameLeftmostGreedy | dumper.rb:167-168 | The name comes from the leftmost matching slash, with the longest group from there |
| LoadTables.TableNameOfSchemaPath | dumper.rb:166-168 | With a slash-free directory, a table's schema path gives back the table |
| LoadTables.TableNameKeepsDirectory | dumper.rb:167 | `./backups/users_schema.sql` gives the name `backups/users` |
| LoadTables.AfterLastSlash | dumper.rb:167 | The last path component is a slash-free suffix preceded by a slash or by nothing |
| LoadTables.AfterLastSlashOf | dumper.rb:167 | The last component of `dir/name` is `name` |
| LoadTables.BaseTableName | dumper.rb:167 | The intended name exists iff the path ends with `_schema.sql`. It is then slash-free, ends right before that suffix, and starts right after a slash or at the start of the path, so it is exactly the text between the last slash and the suffix |
| LoadTables.BaseTableNameOfSchemaPath | dumper.rb:167 | The intended name gives back every table from its schema path, whatever the directory |
| LoadTables.BaseTableNameDropsDirectory | dumper.rb:167 | The intended name of `./backups/users_schema.sql` is `users` |
| LoadTables.LexTotal | dumper.rb:176 | `<=>` orders any two strings |
| LoadTables.LexAntisymmetric | dumper.rb:176 | Strings ordered both ways are equal |
| LoadTables.LexTransitive | dumper.rb:176 | The order is transitive |
| LoadTables.Insert | dumper.rb:176 | Insertion adds exactly the one element |
| LoadTables.InsertSorted | dumper.rb:176 | Insertion into a sorted list keeps it sorted |
| LoadTables.Sort | dumper.rb:176 | `sort!` permutes the list |
| LoadTables.SortSorted | dumper.rb:176 | `sort!` leaves the list in order |
| LoadTables.SortedUnique | dumper.rb:176 | Two sorted lists with the same elements are equal, so the sort is determined by the elements alone |
| LoadTables.Names | dumper.rb:166-169 | The map succeeds iff every path has a name. It then gives each path's name in order; otherwise it reports a path without one |
| LoadTables.DeriveTables | dumper.rb:166-176 | "No tables" iff there are no paths. `NoMatch` iff some path has no name, and it names such a path. A table list is sorted and is a permutation of the paths' names, one per path |
| LoadTables.NamesOfSchemaPaths | dumper.rb:166-169 | Where every table is named right, the names of its schema paths are the tables |
| LoadTables.DeriveTablesRoundTrip | dumper.rb:166-176 | Round trip as written: tables dumped into a slash-free directory load back as the sorted list of those tables |
| LoadTables.DeriveTablesBaseRoundTrip | dumper.rb:166-176 | Round trip with the intended name: the same holds for any directory |
| LoadTables.NamesPermutation | dumper.rb:166-169 | Any two listings of the same named paths give the same names, as multisets |
| LoadTables.DeriveTablesOrderFree | dumper.rb:166-176 | For any two listings of the same paths that all have a name, the table list is the same. This includes directories where the name keeps directory components |

## Left out

- Terminal drawing (`Curses` setup, `setpos`, `addstr`, `refresh`, `getch`, `clear`, the banners padded with `ljust`) is terminal I/O. The terminal height is the `lines` parameter of `ColonizeTables`, and `TableStatus` returns what `place_string` would draw.
- The shell commands (`mysql`, `mysqldump`, `grep -v`, `which`, `show tables`, `show databases`, `show create table`, `select count(*)`) run external programs. Their outputs are parameters: the dump text of `ExtractConstraints`, and the schema and count texts of `VerifyTable`. `which` is modelled by its stripped output in `CheckOptions`.
- The check that the database exists before a load (lines 178-182) greps the output of an external command and is not modelled.
- `Parallel.map` and the thread count are left out: each phase is modelled for one table at a time. The `-t` flag's fallback of 2 never applies, because its block runs only when the flag is given.
- File and directory I/O is left out: the writes and reads of the four files per table, `File.exist?`, `Dir.exist?`, the `Dir[...]` glob and the log file. `Dir.exist?` is the `isDir` parameter, and the glob's result is the `paths` argument of `DeriveTables`.
- `Digest::MD5.hexdigest` is a function parameter `md5`. `Marshal` is modelled by the `Checksum(hash, count)` record.
- `exit`, `sleep` and the messages printed before exiting are not modelled. The errors are `OptionError` and `LoadError` values. The script calls `exit` without a status, so these error exits end with status 0.
- The load phases that source each file (lines 192-222) only run external commands. Their `OK`/`--` statuses come from `File.exist?` and are not modelled.
- `ColonizeTables` requires `lines >= 3`. On a terminal of one or two lines, `each_slice` is given a size of 0 or less and raises `ArgumentError` (line 87). That crash is not modelled.
- LoadTables.DeriveTables: `match[1]` on a path without a match raises in Ruby. This is modelled as the error `NoMatch(path)`.

## Findings

| source | as written | input that shows it | evidently intended | confidence | as-written member | corrected member |
|---|---|---|---|---|---|---|
| dumper.rb:167 | `file.match /\/(.*)_schema.sql/` starts the group at the first `/` of the path, so directory components are captured into the table name | `-D ./backups` finds `./backups/users_schema.sql`, and the name becomes `backups/users`. The load then looks for `./backups/backups/users_<type>.sql`, which does not exist, so each of the three load phases marks the table `--` and sources nothing (lines 205-213). The checksum phase then reads `./backups/backups/users_checksum.dat`, and `File.read` raises, ending the load with an exception (line 237). Any absolute directory breaks the same way | the file's base name without `_schema.sql` (`users`) | not executed | LoadTables.TableNameKeepsDirectory | LoadTables.DeriveTablesBaseRoundTrip |
