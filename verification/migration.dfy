/** The database migration runner (web/scripts/run-migration.js): reading
    `.env` files, choosing the database from the command line, picking the
    latest migration file, splitting the SQL into statements around `$$`
    function bodies, and running them while tolerating objects that already
    exist.  The file system, the environment and the database are
    parameters: file contents arrive as `Option<string>` (`None` when the
    file does not exist) and the database's answer to statement `i` as
    `exec(i)`. */
module Migration {
  import opened Wrappers
  import opened Text
  import opened JsObject

  // ------------------------------------------------------------ .env files

  const DatabaseKey := "NEON_DATABASE_URL"

  /** `line.match(/^([^#=]+)=(.*)$/)` as written: the key is everything
      before the first '=' (non-empty, no '#'), and the value, matched by
      `.`, may hold no line terminator, so a line still carrying the '\r'
      of a CRLF file does not match. */
  function EnvLineAsWritten(line: string): (r: Option<(string, string)>)
    ensures '=' !in line ==> r.None?
    ensures |line| > 0 && line[|line| - 1] == '\r' ==> r.None?
  {
    var eq := CharIndex(line, '=');
    if eq == |line| || eq == 0 || '#' in line[..eq] then None
    else if !SingleLine(line[eq + 1..]) then None
    else Some((Trim(line[..eq]), Trim(line[eq + 1..])))
  }

  /** `s` holds no line terminator: `.*` matches all of it. */
  predicate SingleLine(s: string) {
    forall j | 0 <= j < |s| :: !IsLineTerminator(s[j])
  }

  /** A line as the parser sees it once the '\r' of a CRLF line ending is
      dropped. */
  function WithoutCr(line: string): (r: string)
    ensures |line| > 0 && line[|line| - 1] == '\r' ==> line == r + "\r"
    ensures !(|line| > 0 && line[|line| - 1] == '\r') ==> r == line
  {
    if |line| > 0 && line[|line| - 1] == '\r' then line[..|line| - 1] else line
  }

  /** One `.env` line as the corrected reader sees it: `KEY=VALUE` with
      trimmed key and value, read the same whatever the line ending. */
  function EnvLine(line: string): (r: Option<(string, string)>)
    ensures |line| > 0 && line[|line| - 1] == '\r' ==> r == EnvLineAsWritten(line[..|line| - 1])
    ensures !(|line| > 0 && line[|line| - 1] == '\r') ==> r == EnvLineAsWritten(line)
  {
    EnvLineAsWritten(WithoutCr(line))
  }

  /** The regular expression's meaning: a line matches exactly when it is a
      non-empty key without '#' or '=', then '=', then a value without line
      terminators; the entry is the trimmed key and value. */
  lemma EnvLineMatches(line: string, key: string, value: string)
    requires '#' !in key && '=' !in key && key != ""
    requires SingleLine(value)
    ensures EnvLineAsWritten(key + "=" + value) == Some((Trim(key), Trim(value)))
  {
    var l := key + "=" + value;
    assert l[|key|] == '=';
    assert forall j | 0 <= j < |key| :: l[j] == key[j];
    assert CharIndex(l, '=') == |key|;
    assert l[..|key|] == key;
    assert l[|key| + 1..] == value;
  }

  /** Conversely, every match comes from such a line: the lemma returns its
      key and value parts. */
  lemma EnvLineMatchShape(line: string) returns (key: string, value: string)
    requires EnvLineAsWritten(line).Some?
    ensures line == key + "=" + value && key != "" && '#' !in key && '=' !in key
    ensures SingleLine(value)
    ensures EnvLineAsWritten(line) == Some((Trim(key), Trim(value)))
  {
    var eq := CharIndex(line, '=');
    key, value := line[..eq], line[eq + 1..];
    SplitAtFirstEquals(line, eq);
  }

  /** Cutting a line at its first '=' gives a key without '=' and the rest. */
  lemma SplitAtFirstEquals(line: string, eq: nat)
    requires eq < |line| && line[eq] == '='
    requires forall j | 0 <= j < eq :: line[j] != '='
    ensures line == line[..eq] + "=" + line[eq + 1..]
    ensures '=' !in line[..eq]
  {
    assert line == line[..eq] + [line[eq]] + line[eq + 1..];
  }

  /** The CRLF finding: a Windows-edited `.env` line is ignored by the
      expression as written, and read by the corrected parser. */
  lemma CrlfLineIgnoredAsWritten()
    ensures EnvLineAsWritten("K=v\r") == None
    ensures EnvLine("K=v\r") == Some(("K", "v"))
  {
    var l := "K=v\r";
    assert l[1] == '=' && l[0] != '=';
    assert CharIndex(l, '=') == 1;
    assert l[2..][1] == '\r';
    CrlfLineReadCorrected();
  }

  lemma CrlfLineReadCorrected()
    ensures EnvLine("K=v\r") == Some(("K", "v"))
  {
    assert WithoutCr("K=v\r") == "K" + "=" + "v";
    EnvLineMatches("K=v", "K", "v");
    assert Trim("K") == "K" by { TrimmedFixpoint("K"); }
    assert Trim("v") == "v" by { TrimmedFixpoint("v"); }
  }

  /** With the correction a CRLF line reads like its LF counterpart. */
  lemma CrlfSameAsLf(line: string)
    requires SingleLine(line)
    ensures EnvLine(line + "\r") == EnvLine(line) == EnvLineAsWritten(line)
  {
    assert WithoutCr(line + "\r") == line;
    if |line| > 0 {
      assert !IsLineTerminator(line[|line| - 1]);
    }
  }

  /** A reader of one `.env` line. */
  type LineReader = string -> Option<(string, string)>

  /** The entries of the lines `read` accepts, in file order. */
  function EnvEntries(lines: seq<string>, read: LineReader): seq<(string, string)>
    decreases |lines|
  {
    if |lines| == 0 then []
    else
      var e := read(lines[|lines| - 1]);
      EnvEntries(lines[..|lines| - 1], read) + (if e.Some? then [e.value] else [])
  }

  /** `loadEnvFile`: `{}` for a missing file, else the entries of the lines
      the regular expression matches, assigned in order. */
  function LoadEnvFile(content: Option<string>): (env: Obj<string>)
    ensures content.None? ==> env == []
    ensures WellFormed(env)
  {
    if content.None? then []
    else
      var kvs := EnvEntries(Split(content.value, '\n'), EnvLineAsWritten);
      FromEntriesWellFormed(kvs);
      FromEntries(kvs)
  }

  /** The corrected `loadEnvFile`, which reads CRLF lines like LF ones. */
  function LoadEnvFileCorrected(content: Option<string>): (env: Obj<string>)
    ensures content.None? ==> env == []
    ensures WellFormed(env)
  {
    if content.None? then []
    else
      var kvs := EnvEntries(Split(content.value, '\n'), EnvLine);
      FromEntriesWellFormed(kvs);
      FromEntries(kvs)
  }

  /** The value on the last line `read` accepts for `key`, searching from
      the end. */
  function LastLineValue(lines: seq<string>, key: string, read: LineReader): Option<string>
    decreases |lines|
  {
    if |lines| == 0 then None
    else
      var e := read(lines[|lines| - 1]);
      if e.Some? && e.value.0 == key then Some(e.value.1) else LastLineValue(lines[..|lines| - 1], key, read)
  }

  lemma {:induction false} EnvEntriesLast(lines: seq<string>, key: string, read: LineReader)
    ensures LastValue(EnvEntries(lines, read), key) == LastLineValue(lines, key, read)
    decreases |lines|
  {
    if |lines| > 0 {
      var prefix := lines[..|lines| - 1];
      EnvEntriesLast(prefix, key, read);
      var e := read(lines[|lines| - 1]);
      assert EnvEntries(lines, read) == EnvEntries(prefix, read) + (if e.Some? then [e.value] else []);
      assert LastLineValue(lines, key, read)
          == if e.Some? && e.value.0 == key then Some(e.value.1) else LastLineValue(prefix, key, read);
      if e.Some? {
        var kvs := EnvEntries(prefix, read) + [e.value];
        assert kvs[..|kvs| - 1] == EnvEntries(prefix, read);
      } else {
        assert EnvEntries(lines, read) == EnvEntries(prefix, read);
      }
    }
  }

  /** Reading a key of a loaded file: the value of the last line that
      defines it (later lines win), nothing when no line does; as written
      only lines the regular expression matches count, corrected also the
      CRLF ones. */
  lemma LoadEnvFileGet(content: string, key: string)
    ensures Get(LoadEnvFile(Some(content)), key) == LastLineValue(Split(content, '\n'), key, EnvLineAsWritten)
    ensures Get(LoadEnvFileCorrected(Some(content)), key) == LastLineValue(Split(content, '\n'), key, EnvLine)
  {
    var lines := Split(content, '\n');
    FromEntriesGet(EnvEntries(lines, EnvLineAsWritten), key);
    EnvEntriesLast(lines, key, EnvLineAsWritten);
    FromEntriesGet(EnvEntries(lines, EnvLine), key);
    EnvEntriesLast(lines, key, EnvLine);
  }

  // ------------------------------------------------------ database choice

  /** The database the runner connects to. */
  datatype Target =
    | Production(prodUrl: Option<string>)
    | Custom(url: string, file: Option<string>)
    | Test(url: string)
    | NoTestDatabase

  /** A JavaScript string in a boolean position: set and non-empty. */
  predicate Truthy(v: Option<string>) {
    v.Some? && v.value != ""
  }

  predicate LooksLikeUrl(arg: string) {
    arg != "" && !StartsWith(arg, "--") && StartsWith(arg, "postgres")
  }

  /** The command-line decision: `--prod` anywhere selects the production
      URL of `.env.local` (else the process environment's); otherwise a
      first argument starting with "postgres" is the URL, the second the
      migration file; otherwise the test database of `.env.test`, and
      without one the runner exits. */
  function SelectDatabase(args: seq<string>, envLocal: Option<string>, processUrl: Option<string>, envTest: Option<string>): (r: Target)
    ensures "--prod" in args <==> r.Production?
    ensures r.Custom? <==> "--prod" !in args && |args| > 0 && StartsWith(args[0], "postgres")
    ensures r.Custom? ==> r.url == args[0] && (r.file.Some? <==> |args| > 1)
    ensures r.NoTestDatabase? <==> (
      && "--prod" !in args && !(|args| > 0 && StartsWith(args[0], "postgres"))
      && !Truthy(Get(LoadEnvFile(envTest), DatabaseKey)))
  {
    if "--prod" in args then
      var local := Get(LoadEnvFile(envLocal), DatabaseKey);
      Production(if Truthy(local) then local else processUrl)
    else if |args| > 0 && (UrlTestRedundant(args[0]); LooksLikeUrl(args[0])) then
      Custom(args[0], if |args| > 1 then Some(args[1]) else None)
    else
      var test := Get(LoadEnvFile(envTest), DatabaseKey);
      if Truthy(test) then Test(test.value) else NoTestDatabase
  }

  /** A `.env.test` saved with CRLF endings configures no test database, so
      the runner exits; the corrected reader finds the URL. */
  lemma CrlfTestFileExits()
    ensures SelectDatabase([], None, None, Some("NEON_DATABASE_URL=postgres://db\r")) == NoTestDatabase
    ensures Get(LoadEnvFileCorrected(Some("NEON_DATABASE_URL=postgres://db\r")), DatabaseKey) == Some("postgres://db")
  {
    var line := "NEON_DATABASE_URL=postgres://db\r";
    SampleCrlfLine();
    PlainDatabaseKey();
    CrlfLineNotLoaded(line, DatabaseKey);
    CrlfLineLoadedCorrected(line, DatabaseKey, "postgres://db");
  }

  /** The sample line is the key, '=', a plain URL and '\r'. */
  lemma SampleCrlfLine()
    ensures var line := "NEON_DATABASE_URL=postgres://db\r";
      && line == DatabaseKey + "=" + "postgres://db" + "\r"
      && '\n' !in line && line[|line| - 1] == '\r'
      && SingleLine("postgres://db") && IsTrimmed("postgres://db")
  {
    SampleUrl();
    var line := "NEON_DATABASE_URL=postgres://db\r";
    assert line == DatabaseKey + "=" + "postgres://db" + "\r";
    assert forall j | 0 <= j < |line| :: line[j] != '\n';
  }

  /** The sample URL is a plain, trimmed value. */
  lemma SampleUrl()
    ensures SingleLine("postgres://db") && IsTrimmed("postgres://db")
  {
  }

  /** The key name is a plain, trimmed `.env` key. */
  lemma PlainDatabaseKey()
    ensures '#' !in DatabaseKey && '=' !in DatabaseKey && DatabaseKey != "" && IsTrimmed(DatabaseKey)
  {
  }

  /** As written, a one-line file ending in '\r' defines no key. */
  lemma CrlfLineNotLoaded(line: string, key: string)
    requires '\n' !in line && |line| > 0 && line[|line| - 1] == '\r'
    ensures Get(LoadEnvFile(Some(line)), key) == None
  {
    assert Join([line], '\n') == line;
    SplitJoin([line], '\n');
    assert Split(line, '\n') == [line];
    assert EnvLineAsWritten(line).None?;
    assert LastLineValue([line], key, EnvLineAsWritten) == LastLineValue([], key, EnvLineAsWritten) by {
      assert [line][..0] == [];
    }
    LoadEnvFileGet(line, key);
  }

  /** Corrected, a one-line file `KEY=VALUE\r` defines its key. */
  lemma CrlfLineLoadedCorrected(line: string, key: string, value: string)
    requires line == key + "=" + value + "\r"
    requires '\n' !in line && '#' !in key && '=' !in key && key != "" && SingleLine(value)
    requires IsTrimmed(key) && IsTrimmed(value)
    ensures Get(LoadEnvFileCorrected(Some(line)), key) == Some(value)
  {
    SplitJoin([line], '\n');
    LoadEnvFileGet(line, key);
    assert [line][..0] == [];
    assert WithoutCr(line) == key + "=" + value;
    EnvLineMatches(WithoutCr(line), key, value);
    TrimmedFixpoint(key);
    TrimmedFixpoint(value);
  }

  /** The `!startsWith("--")` test is implied by the "postgres" one. */
  lemma UrlTestRedundant(arg: string)
    ensures LooksLikeUrl(arg) <==> StartsWith(arg, "postgres")
  {
    if StartsWith(arg, "postgres") {
      assert arg[0] == 'p';
    }
  }

  // -------------------------------------------------------- migration file

  predicate IsSql(f: string) {
    EndsWith(f, ".sql")
  }

  /** The last `.sql` file in sorted order: the greatest name, `None` when
      there is none. */
  function LatestSql(files: seq<string>): (r: Option<string>)
    ensures r.None? <==> forall f | f in files :: !IsSql(f)
    ensures r.Some? ==> r.value in files && IsSql(r.value)
    ensures r.Some? ==> forall f | f in files && IsSql(f) :: f == r.value || LexLess(f, r.value)
    decreases |files|
  {
    if |files| == 0 then None
    else
      var rest := LatestSql(files[1..]);
      var f := files[0];
      assert files == [f] + files[1..];
      if !IsSql(f) then rest
      else if rest.None? then Some(f)
      else
        LexLessTotal(f, rest.value);
        if LexLess(f, rest.value) then rest
        else
          assert forall g | g in files[1..] && IsSql(g) :: g == f || LexLess(g, f) by {
            forall g | g in files[1..] && IsSql(g) ensures g == f || LexLess(g, f) {
              if g != rest.value && f != rest.value {
                LexLessTransitive(g, rest.value, f);
              }
            }
          }
          Some(f)
  }

  /** The migration file: the second argument of a custom run when it is
      non-empty, else the latest `.sql` file of the migrations directory
      (`None` when it has none, where the source's `path.join` throws). */
  function MigrationFile(target: Target, files: seq<string>): (r: Option<string>)
    ensures target.Custom? && Truthy(target.file) ==> r == target.file
    ensures !(target.Custom? && Truthy(target.file)) ==> r == LatestSql(files)
  {
    if target.Custom? && Truthy(target.file) then target.file else LatestSql(files)
  }

  // ------------------------------------------------------------- splitting

  /** A `$$` marker starts at `j`. */
  predicate Toggles(sql: string, j: nat) {
    j + 1 < |sql| && sql[j] == '$' && sql[j + 1] == '$'
  }

  /** Whether position `j` lies inside a `$$` region: an odd number of `$$`
      markers start before it. */
  function InDollarQuote(sql: string, j: nat): bool
    requires j <= |sql|
    decreases j
  {
    if j == 0 then false
    else if Toggles(sql, j - 1) then !InDollarQuote(sql, j - 1)
    else InDollarQuote(sql, j - 1)
  }

  /** A ';' outside any `$$` region ends a statement. */
  predicate SplitsAt(sql: string, j: nat)
    requires j < |sql|
  {
    sql[j] == ';' && !InDollarQuote(sql, j)
  }

  /** Where the chunk holding position `j` begins: just after the last
      splitting ';' before `j`, or at 0. */
  function ChunkStart(sql: string, j: nat): (k: nat)
    requires j <= |sql|
    ensures k <= j
    decreases j
  {
    if j == 0 then 0 else if SplitsAt(sql, j - 1) then j else ChunkStart(sql, j - 1)
  }

  /** A chunk starts just after a splitting ';' (or at 0) and holds no
      splitting ';' before `j`. */
  lemma {:induction false} ChunkStartBounds(sql: string, j: nat)
    requires j <= |sql|
    ensures var k := ChunkStart(sql, j);
      && (forall m | k <= m < j :: !SplitsAt(sql, m))
      && (k > 0 ==> SplitsAt(sql, k - 1))
    decreases j
  {
    if j > 0 && !SplitsAt(sql, j - 1) {
      ChunkStartBounds(sql, j - 1);
    }
  }

  /** A ';' at `j` closes the chunk before it. */
  predicate ClosesChunk(sql: string, j: nat) {
    j < |sql| && SplitsAt(sql, j)
  }

  /** `[a, b)` is a chunk: the text up to and including a splitting ';', or
      the remainder after the last one. */
  predicate IsChunk(sql: string, a: nat, b: nat) {
    && a <= b <= |sql|
    && ((0 < b && SplitsAt(sql, b - 1) && a == ChunkStart(sql, b - 1))
        || (b == |sql| && a == ChunkStart(sql, |sql|)))
  }

  /** A line with SQL on it: not blank and not a `--` comment. */
  predicate IsSqlLine(line: string) {
    Trim(line) != "" && !StartsWith(Trim(line), "--")
  }

  /** `hasSQL`: some line of `s` holds SQL. */
  predicate HasSql(s: string) {
    AnySqlLine(Split(s, '\n'))
  }

  /** `lines.some(...)`: some line holds SQL. */
  predicate AnySqlLine(lines: seq<string>)
    decreases |lines|
  {
    |lines| > 0 && (IsSqlLine(lines[0]) || AnySqlLine(lines[1..]))
  }

  /** The execution loop's test: every line is a comment or blank. */
  predicate CommentOnly(stmt: string) {
    forall line | line in Split(stmt, '\n') :: StartsWith(Trim(line), "--") || Trim(line) == ""
  }

  lemma {:induction false} AnySqlLineIff(lines: seq<string>)
    ensures AnySqlLine(lines) <==> exists k | 0 <= k < |lines| :: IsSqlLine(lines[k])
    decreases |lines|
  {
    if |lines| > 0 {
      AnySqlLineIff(lines[1..]);
      if exists k | 0 <= k < |lines| :: IsSqlLine(lines[k]) {
        var k :| 0 <= k < |lines| && IsSqlLine(lines[k]);
        if k > 0 {
          assert lines[1..][k - 1] == lines[k];
        }
      }
      if exists k | 0 <= k < |lines[1..]| :: IsSqlLine(lines[1..][k]) {
        var k :| 0 <= k < |lines[1..]| && IsSqlLine(lines[1..][k]);
        assert lines[k + 1] == lines[1..][k];
      }
    }
  }

  /** The two tests are each other's negation, so the execution loop's
      comment-only skip never fires on a statement the splitter kept. */
  lemma CommentOnlyIffNoSql(stmt: string)
    ensures CommentOnly(stmt) <==> !HasSql(stmt)
  {
    var lines := Split(stmt, '\n');
    AnySqlLineIff(lines);
    if !CommentOnly(stmt) {
      var line :| line in lines && !(StartsWith(Trim(line), "--") || Trim(line) == "");
      var k :| 0 <= k < |lines| && lines[k] == line;
      assert IsSqlLine(lines[k]);
    }
  }

  lemma NoSqlInEmpty()
    ensures !HasSql("")
  {
    assert CharIndex("", '\n') == 0;
    assert Split("", '\n') == [""];
    assert Trim("") == "";
  }

  /** A chunk of the input, `[start, end)`. */
  datatype Span = Span(start: nat, end: nat)

  /** The test a chunk must pass to become a statement: once trimmed it
      holds SQL. */
  predicate KeepsChunk(text: string) {
    HasSql(Trim(text))
  }

  /** The spans of the chunks closed by a splitting ';' before position `i`
      that pass `keep`, in input order. */
  function SpansBefore(sql: string, i: nat, keep: string -> bool): (r: seq<Span>)
    requires i <= |sql|
    ensures forall k | 0 <= k < |r| :: r[k].start <= r[k].end <= i
    decreases i
  {
    if i == 0 then []
    else
      var prev := SpansBefore(sql, i - 1, keep);
      var a := ChunkStart(sql, i - 1);
      if SplitsAt(sql, i - 1) && keep(sql[a..i]) then prev + [Span(a, i)] else prev
  }

  /** The spans of all chunks passing `keep`: the closed ones, then the
      remainder. */
  function SpansWith(sql: string, keep: string -> bool): (r: seq<Span>)
    ensures forall k | 0 <= k < |r| :: r[k].start <= r[k].end <= |sql|
  {
    var a := ChunkStart(sql, |sql|);
    SpansBefore(sql, |sql|, keep) + if keep(sql[a..|sql|]) then [Span(a, |sql|)] else []
  }

  /** The spans of the statements of `sql`. */
  function Spans(sql: string): (r: seq<Span>)
    ensures forall k | 0 <= k < |r| :: r[k].start <= r[k].end <= |sql|
  {
    SpansWith(sql, KeepsChunk)
  }

  /** One character further, the quote state flips exactly on a `$$`
      marker. */
  lemma StepQuote(sql: string, i: nat)
    requires i < |sql|
    ensures InDollarQuote(sql, i + 1) == if Toggles(sql, i) then !InDollarQuote(sql, i) else InDollarQuote(sql, i)
  {
  }

  /** A splitting ';' closes the chunk, recording it when it passes. */
  lemma StepSplit(sql: string, i: nat, keep: string -> bool)
    requires i < |sql| && SplitsAt(sql, i)
    ensures ChunkStart(sql, i + 1) == i + 1
    ensures SpansBefore(sql, i + 1, keep)
      == if keep(sql[ChunkStart(sql, i)..i + 1]) then SpansBefore(sql, i, keep) + [Span(ChunkStart(sql, i), i + 1)] else SpansBefore(sql, i, keep)
  {
  }

  /** Any other character extends the chunk. */
  lemma StepPlain(sql: string, i: nat, keep: string -> bool)
    requires i < |sql| && !SplitsAt(sql, i)
    ensures ChunkStart(sql, i + 1) == ChunkStart(sql, i)
    ensures SpansBefore(sql, i + 1, keep) == SpansBefore(sql, i, keep)
  {
  }

  lemma StepSlice(sql: string, a: nat, i: nat)
    requires a <= i < |sql|
    ensures sql[a..i + 1] == sql[a..i] + [sql[i]]
  {
  }

  /** Statement `k` is the trimmed text of span `k`. */
  predicate Recorded(sql: string, statements: seq<string>, spans: seq<Span>) {
    && |statements| == |spans|
    && forall k | 0 <= k < |spans| :: spans[k].start <= spans[k].end <= |sql| && statements[k] == Trim(sql[spans[k].start..spans[k].end])
  }

  /** Closing a chunk at `end`: its trimmed text is recorded when it holds
      SQL. */
  method CloseChunk(sql: string, start: nat, end: nat, current: string, statements0: seq<string>, spans0: seq<Span>)
    returns (statements: seq<string>, spans: seq<Span>)
    requires start <= end <= |sql| && current == sql[start..end]
    requires Recorded(sql, statements0, spans0)
    ensures Recorded(sql, statements, spans)
    ensures spans == spans0 + if KeepsChunk(sql[start..end]) then [Span(start, end)] else []
  {
    statements, spans := statements0, spans0;
    var trimmed := Trim(current);
    if HasSql(trimmed) {
      statements := statements + [trimmed];
      spans := spans + [Span(start, end)];
    }
  }

  /** The splitting loop's variables: the quote flag, the open chunk and
      the statements recorded so far with their spans. */
  datatype Splitter = Splitter(inDollarQuote: bool, current: string, statements: seq<string>, spans: seq<Span>)

  /** The loop's state before character `i`. */
  predicate LoopState(sql: string, i: nat, st: Splitter) {
    && i <= |sql|
    && st.inDollarQuote == InDollarQuote(sql, i)
    && st.current == sql[ChunkStart(sql, i)..i]
    && st.spans == SpansBefore(sql, i, KeepsChunk)
    && Recorded(sql, st.statements, st.spans)
  }

  /** One turn of the splitting loop: a `$$` marker flips the quote flag, a
      ';' outside quotes closes the chunk, anything else extends it. */
  method Advance(sql: string, i: nat, st0: Splitter) returns (st: Splitter)
    requires i < |sql| && LoopState(sql, i, st0)
    ensures LoopState(sql, i + 1, st)
  {
    var c := sql[i];
    StepQuote(sql, i);
    StepSlice(sql, ChunkStart(sql, i), i);
    if SplitsAt(sql, i) {
      StepSplit(sql, i, KeepsChunk);
    } else {
      StepPlain(sql, i, KeepsChunk);
    }
    if c == '$' && i + 1 < |sql| && sql[i + 1] == '$' {
      st := st0.(inDollarQuote := !st0.inDollarQuote, current := st0.current + [c]);
    } else if c == ';' && !st0.inDollarQuote {
      var statements, spans := CloseChunk(sql, ChunkStart(sql, i), i + 1, st0.current + [c], st0.statements, st0.spans);
      st := Splitter(st0.inDollarQuote, "", statements, spans);
    } else {
      st := st0.(current := st0.current + [c]);
    }
  }

  /** The splitting loop, character by character as the source does it; the
      statements are the trimmed text of the spans. */
  method SplitStatements(sql: string) returns (statements: seq<string>, spans: seq<Span>)
    ensures spans == Spans(sql)
    ensures Recorded(sql, statements, spans)
  {
    var st := Splitter(false, "", [], []);
    var i := 0;
    LoopStarts(sql);
    while i < |sql|
      invariant LoopState(sql, i, st)
    {
      st := Advance(sql, i, st);
      i := i + 1;
    }
    statements, spans := Finish(sql, st);
  }

  /** Before the first character nothing is quoted, open or recorded. */
  lemma LoopStarts(sql: string)
    ensures LoopState(sql, 0, Splitter(false, "", [], []))
  {
  }

  /** After the loop: the remainder becomes the last statement when it is
      not blank and holds SQL. */
  method Finish(sql: string, st: Splitter) returns (statements: seq<string>, spans: seq<Span>)
    requires LoopState(sql, |sql|, st)
    ensures spans == Spans(sql) && Recorded(sql, statements, spans)
  {
    statements, spans := st.statements, st.spans;
    NoSqlInEmpty();
    if Trim(st.current) != "" {
      statements, spans := CloseChunk(sql, ChunkStart(sql, |sql|), |sql|, st.current, statements, spans);
    }
  }

  /** The span `sp` is a chunk whose text passes `keep`. */
  predicate PassingChunk(sql: string, sp: Span, keep: string -> bool) {
    IsChunk(sql, sp.start, sp.end) && keep(sql[sp.start..sp.end])
  }

  /** Every span closed before `i` is a chunk that passes. */
  lemma {:induction false} SpansBeforeAreChunks(sql: string, i: nat, keep: string -> bool)
    requires i <= |sql|
    ensures forall k | 0 <= k < |SpansBefore(sql, i, keep)| :: PassingChunk(sql, SpansBefore(sql, i, keep)[k], keep)
    decreases i
  {
    if i > 0 {
      SpansBeforeAreChunks(sql, i - 1, keep);
      var prev := SpansBefore(sql, i - 1, keep);
      var r := SpansBefore(sql, i, keep);
      var a := ChunkStart(sql, i - 1);
      if SplitsAt(sql, i - 1) && keep(sql[a..i]) {
        assert r == prev + [Span(a, i)];
        forall k | 0 <= k < |r| ensures PassingChunk(sql, r[k], keep) {
          if k < |prev| {
            assert r[k] == prev[k];
          }
        }
      } else {
        assert r == prev;
      }
    }
  }

  /** The spans closed before `i` are in input order and end by the start
      of the chunk holding `i`. */
  lemma {:induction false} SpansBeforeOrdered(sql: string, i: nat, keep: string -> bool)
    requires i <= |sql|
    ensures var r := SpansBefore(sql, i, keep);
      && (forall k | 0 < k < |r| :: r[k - 1].end <= r[k].start)
      && (|r| > 0 ==> r[|r| - 1].end <= ChunkStart(sql, i))
    decreases i
  {
    if i > 0 {
      SpansBeforeOrdered(sql, i - 1, keep);
      var prev := SpansBefore(sql, i - 1, keep);
      var r := SpansBefore(sql, i, keep);
      var a := ChunkStart(sql, i - 1);
      if SplitsAt(sql, i - 1) {
        assert ChunkStart(sql, i) == i;
        if keep(sql[a..i]) {
          assert r == prev + [Span(a, i)];
          forall k | 0 < k < |r| ensures r[k - 1].end <= r[k].start {
            if k < |prev| {
              assert r[k - 1] == prev[k - 1] && r[k] == prev[k];
            }
          }
        } else {
          assert r == prev;
        }
      } else {
        assert ChunkStart(sql, i) == a;
        assert r == prev;
      }
    }
  }

  /** Every chunk closed before `i` that passes is a span. */
  lemma {:induction false} SpansBeforeComplete(sql: string, i: nat, keep: string -> bool)
    requires i <= |sql|
    ensures forall j: nat {:trigger ClosesChunk(sql, j)} | j < i && ClosesChunk(sql, j) && keep(sql[ChunkStart(sql, j)..j + 1]) ::
      Span(ChunkStart(sql, j), j + 1) in SpansBefore(sql, i, keep)
    decreases i
  {
    if i > 0 {
      SpansBeforeComplete(sql, i - 1, keep);
      var prev := SpansBefore(sql, i - 1, keep);
      var r := SpansBefore(sql, i, keep);
      var a := ChunkStart(sql, i - 1);
      if SplitsAt(sql, i - 1) && keep(sql[a..i]) {
        assert r == prev + [Span(a, i)];
      } else {
        assert r == prev;
      }
    }
  }

  /** The spans are exactly the chunks that pass, in input order. */
  lemma SpansWithChunks(sql: string, keep: string -> bool)
    ensures forall k | 0 <= k < |SpansWith(sql, keep)| :: PassingChunk(sql, SpansWith(sql, keep)[k], keep)
    ensures forall k | 0 < k < |SpansWith(sql, keep)| :: SpansWith(sql, keep)[k - 1].end <= SpansWith(sql, keep)[k].start
    ensures forall a: nat, b: nat | IsChunk(sql, a, b) && keep(sql[a..b]) :: Span(a, b) in SpansWith(sql, keep)
  {
    SpansWithPassing(sql, keep);
    SpansWithOrdered(sql, keep);
    SpansWithComplete(sql, keep);
  }

  lemma SpansWithPassing(sql: string, keep: string -> bool)
    ensures forall k | 0 <= k < |SpansWith(sql, keep)| :: PassingChunk(sql, SpansWith(sql, keep)[k], keep)
  {
    SpansBeforeAreChunks(sql, |sql|, keep);
    var before := SpansBefore(sql, |sql|, keep);
    var r := SpansWith(sql, keep);
    var a := ChunkStart(sql, |sql|);
    forall k | 0 <= k < |r| ensures PassingChunk(sql, r[k], keep) {
      if k < |before| {
        assert r[k] == before[k];
      } else {
        assert r[k] == Span(a, |sql|);
      }
    }
  }

  lemma SpansWithOrdered(sql: string, keep: string -> bool)
    ensures forall k | 0 < k < |SpansWith(sql, keep)| :: SpansWith(sql, keep)[k - 1].end <= SpansWith(sql, keep)[k].start
  {
    SpansBeforeOrdered(sql, |sql|, keep);
    var before := SpansBefore(sql, |sql|, keep);
    var r := SpansWith(sql, keep);
    forall k | 0 < k < |r| ensures r[k - 1].end <= r[k].start {
      assert r[k - 1] == before[k - 1];
      if k < |before| {
        assert r[k] == before[k];
      }
    }
  }

  lemma SpansWithComplete(sql: string, keep: string -> bool)
    ensures forall a: nat, b: nat | IsChunk(sql, a, b) && keep(sql[a..b]) :: Span(a, b) in SpansWith(sql, keep)
  {
    SpansBeforeComplete(sql, |sql|, keep);
    var before := SpansBefore(sql, |sql|, keep);
    var r := SpansWith(sql, keep);
    forall a: nat, b: nat | IsChunk(sql, a, b) && keep(sql[a..b]) ensures Span(a, b) in r {
      if 0 < b && SplitsAt(sql, b - 1) && a == ChunkStart(sql, b - 1) {
        assert ClosesChunk(sql, b - 1);
        assert Span(a, b) in before;
      } else {
        assert r == before + [Span(a, b)];
      }
    }
  }

  /** The statements are exactly the chunks holding SQL, trimmed, in input
      order: every span is a chunk whose trimmed text holds SQL, and every
      such chunk is a span. */
  lemma SpansAreChunks(sql: string)
    ensures forall k | 0 <= k < |Spans(sql)| ::
      IsChunk(sql, Spans(sql)[k].start, Spans(sql)[k].end) && HasSql(Trim(sql[Spans(sql)[k].start..Spans(sql)[k].end]))
    ensures forall k | 0 < k < |Spans(sql)| :: Spans(sql)[k - 1].end <= Spans(sql)[k].start
    ensures forall a: nat, b: nat | IsChunk(sql, a, b) && HasSql(Trim(sql[a..b])) :: Span(a, b) in Spans(sql)
  {
    SpansWithChunks(sql, KeepsChunk);
  }

  /** No splitting ';' lies inside a statement: only its last character may
      be one. */
  lemma StatementsDoNotSplit(sql: string, k: nat)
    requires k < |Spans(sql)|
    ensures forall m: nat | Spans(sql)[k].start <= m && m + 1 < Spans(sql)[k].end :: !SplitsAt(sql, m)
  {
    SpansAreChunks(sql);
    var sp := Spans(sql)[k];
    assert IsChunk(sql, sp.start, sp.end);
    ChunkHasNoInnerSplit(sql, sp.start, sp.end);
  }

  /** Inside a chunk only the last character may be a splitting ';'. */
  lemma ChunkHasNoInnerSplit(sql: string, a: nat, b: nat)
    requires IsChunk(sql, a, b)
    ensures forall m: nat | a <= m && m + 1 < b :: !SplitsAt(sql, m)
  {
    if 0 < b && SplitsAt(sql, b - 1) && a == ChunkStart(sql, b - 1) {
      ChunkStartBounds(sql, b - 1);
    } else {
      ChunkStartBounds(sql, |sql|);
    }
  }

  // ---------------------------------------------------------------------
  // Running the statements
  // ---------------------------------------------------------------------

  /** How a migration run ends: every statement handled, or stopped by the
      first error that is not tolerated. */
  datatype Report = Completed(executed: nat, skipped: nat) | Aborted(index: nat, message: string)

  /** Errors the run tolerates: the object or row is already there. */
  predicate Tolerated(message: string) {
    Contains(message, "already exists") || Contains(message, "duplicate key")
  }

  /** Statement `k` is sent to the database (`skip` does not hold of it)
      and the database answers with an error the run does not tolerate;
      `exec(k)` is the database's answer to statement `k`, `None` for
      success. The run skips comment-only statements: `skip` is
      `CommentOnly`. */
  predicate Fatal(statements: seq<string>, exec: nat -> Option<string>, skip: string -> bool, k: nat)
    requires k < |statements|
  {
    !skip(statements[k]) && exec(k).Some? && !Tolerated(exec(k).value)
  }

  /** Statements among the first `n` that are sent and succeed. */
  function Executed(statements: seq<string>, exec: nat -> Option<string>, skip: string -> bool, n: nat): (r: nat)
    requires n <= |statements|
    ensures r <= n
  {
    if n == 0 then 0
    else Executed(statements, exec, skip, n - 1) + if !skip(statements[n - 1]) && exec(n - 1).None? then 1 else 0
  }

  /** The execution loop: comment-only statements are skipped, tolerated
      errors count as skipped, any other error aborts the run at once. */
  method RunMigration(statements: seq<string>, exec: nat -> Option<string>) returns (r: Report)
    ensures r.Completed? <==> forall k | 0 <= k < |statements| :: !Fatal(statements, exec, CommentOnly, k)
    ensures r.Completed? ==> (
      && r.executed == Executed(statements, exec, CommentOnly, |statements|)
      && r.executed + r.skipped == |statements|)
    ensures r.Aborted? ==> (
      && r.index < |statements| && Fatal(statements, exec, CommentOnly, r.index) && exec(r.index) == Some(r.message)
      && forall k | 0 <= k < r.index :: !Fatal(statements, exec, CommentOnly, k))
  {
    r := RunWith(statements, exec, CommentOnly);
  }

  /** The loop of `RunMigration` for any choice of the statements to skip. */
  method RunWith(statements: seq<string>, exec: nat -> Option<string>, skip: string -> bool) returns (r: Report)
    ensures r.Completed? <==> forall k | 0 <= k < |statements| :: !Fatal(statements, exec, skip, k)
    ensures r.Completed? ==> (
      && r.executed == Executed(statements, exec, skip, |statements|)
      && r.executed + r.skipped == |statements|)
    ensures r.Aborted? ==> (
      && r.index < |statements| && Fatal(statements, exec, skip, r.index) && exec(r.index) == Some(r.message)
      && forall k | 0 <= k < r.index :: !Fatal(statements, exec, skip, k))
  {
    var executed, skipped := 0, 0;
    var i := 0;
    while i < |statements|
      invariant i <= |statements|
      invariant executed == Executed(statements, exec, skip, i) && executed + skipped == i
      invariant forall k | 0 <= k < i :: !Fatal(statements, exec, skip, k)
    {
      if skip(statements[i]) {
        skipped := skipped + 1;
      } else {
        match exec(i)
        case None =>
          executed := executed + 1;
        case Some(message) =>
          if Tolerated(message) {
            skipped := skipped + 1;
          } else {
            assert Fatal(statements, exec, skip, i);
            return Aborted(i, message);
          }
      }
      assert !Fatal(statements, exec, skip, i);
      i := i + 1;
    }
    return Completed(executed, skipped);
  }

  /** When every statement is sent and succeeds, all of them count as
      executed. */
  lemma {:induction false} AllExecuted(statements: seq<string>, exec: nat -> Option<string>, skip: string -> bool, n: nat)
    requires n <= |statements|
    requires forall k | 0 <= k < n :: !skip(statements[k]) && exec(k).None?
    ensures Executed(statements, exec, skip, n) == n
  {
    if n > 0 {
      AllExecuted(statements, exec, skip, n - 1);
    }
  }

  /** The splitter only keeps statements holding SQL, so the comment-only
      skip never fires on its output. */
  lemma SplitOutputNeverSkipped(sql: string, statements: seq<string>)
    requires Recorded(sql, statements, Spans(sql))
    ensures forall k | 0 <= k < |statements| :: !CommentOnly(statements[k])
  {
    SpansAreChunks(sql);
    forall k | 0 <= k < |statements| ensures !CommentOnly(statements[k]) {
      var sp := Spans(sql)[k];
      assert statements[k] == Trim(sql[sp.start..sp.end]);
      CommentOnlyIffNoSql(statements[k]);
    }
  }

  /** On the splitter's output a statement aborts the run exactly when the
      database rejects it with an error that is not tolerated. */
  lemma SplitOutputFatal(sql: string, statements: seq<string>, exec: nat -> Option<string>, k: nat)
    requires Recorded(sql, statements, Spans(sql)) && k < |statements|
    ensures Fatal(statements, exec, CommentOnly, k) <==> exec(k).Some? && !Tolerated(exec(k).value)
  {
    SplitOutputNeverSkipped(sql, statements);
  }
}
