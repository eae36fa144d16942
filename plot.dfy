/** Decoding and validation of a PoC1 plot file name (`Plot::new`) and the
    PoC2 name it is converted to (`poc2_name`).

    The file system is not consulted: what `Plot::new` asks of it (whether the
    path exists and is a file, its length, whether the out directory is a
    directory) is passed in as `FsFacts`. Each `panic!` of the source is one
    `PlotError`, and the checks are made in the source's order, so the first
    failing check decides the error. */
module PlotName {
  import opened Results
  import opened Decimal
  import opened Fields
  import opened Geometry

  /** What `Plot::new` learns from the file system. */
  datatype FsFacts = FsFacts(pathExists: bool, isFile: bool, fileLen: u64, outIsDir: bool)

  datatype Plot = Plot(id: u64, offset: u64, nonces: i64, size: u64, path: string, outDir: Option<string>)

  datatype PlotError =
    | WrongFormat                          // fewer than four fields
    | BadId                                // field 0 is not a u64
    | BadOffset                            // field 1 is not a u64
    | BadNonces                            // field 2 is not an i64
    | BadStagger                           // field 3 is not an i64
    | PathMissing                          // the path does not exist
    | NotAFile                             // the path is not a regular file
    | NotOptimized                         // nonces != stagger
    | SizeOverflow                         // nonces * NONCE_SIZE overflows i64
    | SizeMismatch(expected: i64, got: u64) // the file length is not the expected size
    | OutNotDir                            // the out directory is not a directory

  /** `x as u64` for an `i64`: two's complement reinterpretation. */
  function AsU64(x: i64): (r: u64)
    ensures r % 0x1_0000_0000_0000_0000 == x % 0x1_0000_0000_0000_0000
    ensures x >= 0 ==> r == x
    ensures x < 0 ==> r > I64_MAX
  {
    if x < 0 then x + 0x1_0000_0000_0000_0000 else x
  }

  /** The four numeric fields of a PoC1 plot name. */
  datatype NameFields = NameFields(id: u64, offset: u64, nonces: i64, stagger: i64)

  /** The errors found in the name alone. */
  predicate IsNameError(e: PlotError) {
    e.WrongFormat? || e.BadId? || e.BadOffset? || e.BadNonces? || e.BadStagger?
  }

  /** The path has four fields, two `u64` then two `i64`, that all parse. */
  predicate FieldsParse(path: string) {
    var parts := Split(path);
    |parts| >= 4 && ParseU64(parts[0]).Some? && ParseU64(parts[1]).Some?
    && ParseI64(parts[2]).Some? && ParseI64(parts[3]).Some?
  }

  /** The first half of `Plot::new`: split the path on `_` and parse the first
      four fields, reporting the first that fails. */
  function DecodeName(path: string): (r: Result<NameFields, PlotError>)
    ensures r.Failure? ==> IsNameError(r.error)
    ensures r == Failure(WrongFormat) <==> |Split(path)| < 4
    ensures r.Success? <==> FieldsParse(path)
    ensures r.Success? ==>
      var parts, n := Split(path), r.value;
      && ParseU64(parts[0]) == Some(n.id) && ParseU64(parts[1]) == Some(n.offset)
      && ParseI64(parts[2]) == Some(n.nonces) && ParseI64(parts[3]) == Some(n.stagger)
  {
    var parts := Split(path);
    if |parts| < 4 then Failure(WrongFormat)
    else
      var id, offset, nonces, stagger := ParseU64(parts[0]), ParseU64(parts[1]), ParseI64(parts[2]), ParseI64(parts[3]);
      if id.None? then Failure(BadId)
      else if offset.None? then Failure(BadOffset)
      else if nonces.None? then Failure(BadNonces)
      else if stagger.None? then Failure(BadStagger)
      else Success(NameFields(id.value, offset.value, nonces.value, stagger.value))
  }

  /** The second half of `Plot::new`: the path must be an existing file, the
      plot optimized, its length the one the nonce count gives, and the out
      directory, if any, a directory. */
  function CheckFile(n: NameFields, path: string, out: Option<string>, fs: FsFacts): (r: Result<Plot, PlotError>)
    ensures r.Failure? ==> !IsNameError(r.error)
    ensures r.Success? <==>
      && fs.pathExists && fs.isFile && n.nonces == n.stagger
      && I64_MIN <= n.nonces * NONCE_SIZE <= I64_MAX
      && fs.fileLen == AsU64(n.nonces * NONCE_SIZE)
      && (out.Some? ==> fs.outIsDir)
    ensures r.Success? ==> r.value == Plot(n.id, n.offset, n.nonces, fs.fileLen, path, out)
  {
    if !fs.pathExists then Failure(PathMissing)
    else if !fs.isFile then Failure(NotAFile)
    else if n.nonces != n.stagger then Failure(NotOptimized)
    else if !(I64_MIN <= n.nonces * NONCE_SIZE <= I64_MAX) then Failure(SizeOverflow)
    else if fs.fileLen != AsU64(n.nonces * NONCE_SIZE) then Failure(SizeMismatch(n.nonces * NONCE_SIZE, fs.fileLen))
    else if out.Some? && !fs.outIsDir then Failure(OutNotDir)
    else Success(Plot(n.id, n.offset, n.nonces, fs.fileLen, path, out))
  }

  /** `Plot::new(path, out)`. The field split runs on the whole path string. */
  function NewPlot(path: string, out: Option<string>, fs: FsFacts): (r: Result<Plot, PlotError>)
    ensures r.Success? ==>
      var parts, p := Split(path), r.value;
      && |parts| >= 4
      && ParseU64(parts[0]) == Some(p.id)
      && ParseU64(parts[1]) == Some(p.offset)
      && ParseI64(parts[2]) == Some(p.nonces)
      && ParseI64(parts[3]) == Some(p.nonces)
      && fs.pathExists && fs.isFile
      && I64_MIN <= p.nonces * NONCE_SIZE <= I64_MAX
      && p.size == fs.fileLen == AsU64(p.nonces * NONCE_SIZE)
      && (out.Some? ==> fs.outIsDir)
      && p.path == path && p.outDir == out
    ensures r.Success? <==>
      && FieldsParse(path) && fs.pathExists && fs.isFile
      && ParseI64(Split(path)[2]) == ParseI64(Split(path)[3])
      && I64_MIN <= ParseI64(Split(path)[2]).value * NONCE_SIZE <= I64_MAX
      && fs.fileLen == AsU64(ParseI64(Split(path)[2]).value * NONCE_SIZE)
      && (out.Some? ==> fs.outIsDir)
  {
    var d := DecodeName(path);
    if d.Failure? then Failure(d.error) else CheckFile(d.value, path, out, fs)
  }

  /** `poc2_name`: id, offset and nonce count in decimal, the stagger dropped. */
  function Poc2Name(p: Plot): (r: string)
    ensures Split(r) == [NatToString(p.id), NatToString(p.offset), IntToString(p.nonces)]
  {
    var a, b, c := NatToString(p.id), NatToString(p.offset), IntToString(p.nonces);
    NumeralNoSep(a);
    NumeralNoSep(b);
    IntNumeralNoSep(p.nonces);
    SplitThree(a, b, c);
    a + [SEP] + (b + [SEP] + c)
  }

  lemma NumeralNoSep(s: string)
    requires AllDigits(s)
    ensures SEP !in s
  {
  }

  lemma IntNumeralNoSep(i: int)
    ensures SEP !in IntToString(i)
  {
    var r := IntToString(i);
    if i < 0 {
      NumeralNoSep(r[1..]);
      assert r == "-" + r[1..];
    } else {
      NumeralNoSep(r);
    }
  }

  /** The result with its path replaced: two names with the same first four
      fields decode to the same plot up to the path. */
  function WithPath(r: Result<Plot, PlotError>, path: string): Result<Plot, PlotError> {
    if r.Success? then Success(r.value.(path := path)) else r
  }

  /** A name is rejected as malformed exactly when it has fewer than four
      fields, that is fewer than three separators. */
  lemma WrongFormatIff(path: string, out: Option<string>, fs: FsFacts)
    ensures NewPlot(path, out, fs) == Failure(WrongFormat) <==> |Split(path)| < 4
    ensures |Split(path)| < 4 <==> SepCount(path) < 3
  {
    SplitCount(path);
  }

  /** Only the first four fields are looked at. */
  lemma SameFieldsSameOutcome(a: string, b: string, out: Option<string>, fs: FsFacts)
    requires |Split(a)| >= 4 && |Split(b)| >= 4 && Split(a)[..4] == Split(b)[..4]
    ensures NewPlot(b, out, fs) == WithPath(NewPlot(a, out, fs), b)
  {
    assert Split(a)[0] == Split(b)[0] && Split(a)[1] == Split(b)[1];
    assert Split(a)[2] == Split(b)[2] && Split(a)[3] == Split(b)[3];
  }

  /** Fields after the fourth are ignored. */
  lemma ExtraFieldsIgnored(name: string, extra: string, out: Option<string>, fs: FsFacts)
    requires |Split(name)| >= 4
    ensures NewPlot(name + [SEP] + extra, out, fs) == WithPath(NewPlot(name, out, fs), name + [SEP] + extra)
  {
    SplitAppend(name, extra);
    assert (Split(name) + Split(extra))[..4] == Split(name)[..4];
    SameFieldsSameOutcome(name, name + [SEP] + extra, out, fs);
  }

  /** A field that does not parse is reported, the earliest one first, before
      the file system is considered. */
  lemma FieldErrors(path: string, out: Option<string>, fs: FsFacts)
    requires |Split(path)| >= 4
    ensures var parts := Split(path);
      && (ParseU64(parts[0]).None? ==> NewPlot(path, out, fs) == Failure(BadId))
      && (ParseU64(parts[0]).Some? && ParseU64(parts[1]).None? ==> NewPlot(path, out, fs) == Failure(BadOffset))
      && (ParseU64(parts[0]).Some? && ParseU64(parts[1]).Some? && ParseI64(parts[2]).None? ==>
            NewPlot(path, out, fs) == Failure(BadNonces))
      && (ParseU64(parts[0]).Some? && ParseU64(parts[1]).Some? && ParseI64(parts[2]).Some? && ParseI64(parts[3]).None? ==>
            NewPlot(path, out, fs) == Failure(BadStagger))
  {
  }

  /** Once the four fields parse, the file-level checks report in the source's
      order: a missing path, then a path that is not a file, then (for an
      optimized plot) a nonce count whose size overflows `i64`, and last, for a
      plot of the right length, an out directory that is not a directory. */
  lemma FileErrors(path: string, out: Option<string>, fs: FsFacts)
    requires FieldsParse(path)
    ensures var nonces, stagger := ParseI64(Split(path)[2]).value, ParseI64(Split(path)[3]).value;
      && (!fs.pathExists ==> NewPlot(path, out, fs) == Failure(PathMissing))
      && (fs.pathExists && !fs.isFile ==> NewPlot(path, out, fs) == Failure(NotAFile))
      && (fs.pathExists && fs.isFile && nonces == stagger && !(I64_MIN <= nonces * NONCE_SIZE <= I64_MAX) ==>
            NewPlot(path, out, fs) == Failure(SizeOverflow))
      && (fs.pathExists && fs.isFile && nonces == stagger && I64_MIN <= nonces * NONCE_SIZE <= I64_MAX
          && fs.fileLen == AsU64(nonces * NONCE_SIZE) && out.Some? && !fs.outIsDir ==>
            NewPlot(path, out, fs) == Failure(OutNotDir))
  {
  }

  /** A plot whose stagger differs from its nonce count is rejected whatever
      the file's length and the out directory. */
  lemma NotOptimizedBeforeSize(path: string, out: Option<string>, fs: FsFacts)
    requires FieldsParse(path) && fs.pathExists && fs.isFile
    requires ParseI64(Split(path)[2]) != ParseI64(Split(path)[3])
    ensures NewPlot(path, out, fs) == Failure(NotOptimized)
  {
  }

  /** For a non-negative nonce count that fits, the plot is accepted exactly
      when the file holds `nonces * 262144` bytes (and the out directory, if
      any, is a directory); otherwise the size is reported. */
  lemma SizeDecides(path: string, out: Option<string>, fs: FsFacts)
    requires FieldsParse(path) && fs.pathExists && fs.isFile
    requires ParseI64(Split(path)[2]) == ParseI64(Split(path)[3])
    requires var n := ParseI64(Split(path)[2]).value; 0 <= n && n * NONCE_SIZE <= I64_MAX
    ensures var n := ParseI64(Split(path)[2]).value;
      && (NewPlot(path, out, fs).Success? <==> fs.fileLen == PlotSize(n) && (out.Some? ==> fs.outIsDir))
      && (fs.fileLen != PlotSize(n) ==> NewPlot(path, out, fs) == Failure(SizeMismatch(n * NONCE_SIZE, fs.fileLen)))
  {
  }

  /** An accepted plot has a size that is its nonce count times 262144 when
      the count is not negative; a negative count can only be accepted with a
      file of 2^63 bytes or more, through the unsigned cast. */
  lemma AcceptedSize(path: string, out: Option<string>, fs: FsFacts)
    requires NewPlot(path, out, fs).Success?
    ensures var p := NewPlot(path, out, fs).value;
      && (p.nonces >= 0 ==> p.size == PlotSize(p.nonces))
      && (p.nonces >= 0 <==> p.size <= I64_MAX)
  {
  }

  /** The split sees the whole path string, so a directory in front of the
      name puts a `/` into the id field and the id fails to parse. */
  lemma DirectoryPrefixRejected(path: string, out: Option<string>, fs: FsFacts)
    requires |Split(path)| >= 4 && '/' in Split(path)[0]
    ensures NewPlot(path, out, fs) == Failure(BadId)
  {
    var f := Split(path)[0];
    var i :| 0 <= i < |f| && f[i] == '/';
    ParseU64RejectsNonDigit(f, i);
  }

  /** A rendered plot name decodes to the plot it was rendered from. */
  lemma RenderedNameDecodes(id: u64, offset: u64, nonces: i64, out: Option<string>, fs: FsFacts)
    requires fs.pathExists && fs.isFile && I64_MIN <= nonces * NONCE_SIZE <= I64_MAX
    requires fs.fileLen == AsU64(nonces * NONCE_SIZE) && (out.Some? ==> fs.outIsDir)
    ensures var path := Poc2Name(Plot(id, offset, nonces, 0, "", None)) + [SEP] + IntToString(nonces);
      NewPlot(path, out, fs) == Success(Plot(id, offset, nonces, fs.fileLen, path, out))
  {
    var name := Poc2Name(Plot(id, offset, nonces, 0, "", None));
    IntNumeralNoSep(nonces);
    SplitNoSep(IntToString(nonces));
    SplitAppend(name, IntToString(nonces));
    ParseU64Rendered(id);
    ParseU64Rendered(offset);
    ParseI64Rendered(nonces);
  }

  /** A PoC2 name has three fields, so it is not accepted as a PoC1 plot name. */
  lemma Poc2NameRejected(p: Plot, out: Option<string>, fs: FsFacts)
    ensures NewPlot(Poc2Name(p), out, fs) == Failure(WrongFormat)
  {
  }

  /** The fields of the PoC2 name parse back to the plot's id, offset and nonce count. */
  lemma Poc2NameFields(p: Plot)
    ensures var parts := Split(Poc2Name(p));
      ParseU64(parts[0]) == Some(p.id) && ParseU64(parts[1]) == Some(p.offset) && ParseI64(parts[2]) == Some(p.nonces)
  {
    ParseU64Rendered(p.id);
    ParseU64Rendered(p.offset);
    ParseI64Rendered(p.nonces);
  }

  /** A PoC2 name rendered from canonically written fields is those fields joined. */
  lemma {:induction false} RenderCanonicalFields(p: Plot, parts: seq<string>)
    requires |parts| >= 3 && Canonical(parts[0]) && Canonical(parts[1]) && Canonical(parts[2])
    requires ParseU64(parts[0]) == Some(p.id) && ParseU64(parts[1]) == Some(p.offset)
    requires ParseI64(parts[2]) == Some(p.nonces)
    ensures Poc2Name(p) == Join(parts[..3])
  {
    ParseU64Canonical(parts[0], p.id);
    ParseU64Canonical(parts[1], p.offset);
    ParseI64Canonical(parts[2], p.nonces);
    var name := Poc2Name(p);
    var fields := [NatToString(p.id), NatToString(p.offset), IntToString(p.nonces)];
    assert fields == parts[..3];
    JoinSplit(name);
    assert Join(fields) == name;
  }

  /** When a plot's first three fields are written without sign or leading
      zeros, its PoC2 name is the first three fields of its PoC1 name. */
  lemma Poc2NameKeepsFields(path: string, out: Option<string>, fs: FsFacts)
    requires NewPlot(path, out, fs).Success?
    requires Canonical(Split(path)[0]) && Canonical(Split(path)[1]) && Canonical(Split(path)[2])
    ensures Poc2Name(NewPlot(path, out, fs).value) == Join(Split(path)[..3])
  {
    RenderCanonicalFields(NewPlot(path, out, fs).value, Split(path));
  }

  /** `Path::parent` of a relative or absolute path: everything before the
      last `/`, the root itself when that is the first character, and the
      empty path for a bare file name. */
  function Parent(path: string): (r: string)
    ensures |r| <= |path| && r == path[..|r|]
    ensures '/' !in path ==> r == ""
    decreases |path|
  {
    if |path| == 0 then ""
    else if path[|path| - 1] == '/' then (if |path| == 1 then "/" else path[..|path| - 1])
    else Parent(path[..|path| - 1])
  }

  /** `PathBuf::push` of a relative name onto a directory. */
  function JoinPath(dir: string, name: string): (r: string)
    ensures dir == "" ==> r == name
    ensures |r| >= |name| && r[|r| - |name|..] == name
  {
    if dir == "" then name
    else if dir[|dir| - 1] == '/' then dir + name
    else dir + "/" + name
  }

  /** Where the in-place conversion renames the plot: its PoC2 name next to it. */
  function RenameTarget(p: Plot): (r: string)
    ensures |r| >= |Poc2Name(p)| && r[|r| - |Poc2Name(p)|..] == Poc2Name(p)
    ensures '/' !in p.path ==> r == Poc2Name(p)
  {
    JoinPath(Parent(p.path), Poc2Name(p))
  }

  /** Where the copying conversion writes: the PoC2 name in the out directory. */
  function CopyTarget(p: Plot, dir: string): (r: string)
    ensures |r| >= |Poc2Name(p)| && r[|r| - |Poc2Name(p)|..] == Poc2Name(p)
    ensures dir == "" ==> r == Poc2Name(p)
  {
    JoinPath(dir, Poc2Name(p))
  }

  /** A plot given by a bare file name is renamed to its bare PoC2 name. */
  lemma BareNameRenamed(p: Plot)
    requires '/' !in p.path
    ensures RenameTarget(p) == Poc2Name(p)
  {
  }

  /** A PoC2 name holds digits, `-` and `_` only, so never a path separator. */
  lemma Poc2NameNoSlash(p: Plot)
    ensures '/' !in Poc2Name(p)
  {
    var a, b, c := NatToString(p.id), NatToString(p.offset), IntToString(p.nonces);
    assert '/' !in a && '/' !in b;
    if p.nonces < 0 {
      assert c == "-" + c[1..] && '/' !in c[1..];
    }
    assert Poc2Name(p) == a + [SEP] + (b + [SEP] + c);
  }

  /** Appending characters other than `/` does not move the parent. */
  lemma {:induction false} ParentAppend(x: string, name: string)
    requires '/' !in name
    ensures Parent(x + name) == Parent(x)
    decreases |name|
  {
    if |name| > 0 {
      var y := x + name;
      assert y[..|y| - 1] == x + name[..|name| - 1];
      ParentAppend(x, name[..|name| - 1]);
    } else {
      assert x + name == x;
    }
  }

  /** The parent of a name pushed onto a directory is that directory, unless the
      directory is spelled with a trailing `/` other than the root. */
  lemma ParentJoinPath(dir: string, name: string)
    requires '/' !in name
    requires dir == "" || dir == "/" || dir[|dir| - 1] != '/'
    ensures Parent(JoinPath(dir, name)) == dir
  {
    if dir == "/" {
      ParentAppend(dir, name);
    } else if dir != "" {
      ParentAppend(dir + "/", name);
      assert dir + "/" + name == (dir + "/") + name;
    }
  }

  /** The in-place conversion renames the plot within its own directory. */
  lemma RenameKeepsDirectory(p: Plot)
    requires var d := Parent(p.path); d == "" || d == "/" || d[|d| - 1] != '/'
    ensures Parent(RenameTarget(p)) == Parent(p.path)
  {
    Poc2NameNoSlash(p);
    ParentJoinPath(Parent(p.path), Poc2Name(p));
  }

  /** The copy is written directly inside the out directory. */
  lemma CopyInOutDirectory(p: Plot, dir: string)
    requires dir == "" || dir == "/" || dir[|dir| - 1] != '/'
    ensures Parent(CopyTarget(p, dir)) == dir
  {
    Poc2NameNoSlash(p);
    ParentJoinPath(dir, Poc2Name(p));
  }

  /** A non-numeric account id is rejected from the name alone, whatever the
      file system says. */
  lemma NonNumericIdRejected(out: Option<string>, fs: FsFacts)
    ensures NewPlot("abc_0_10_10", out, fs) == Failure(BadId)
  {
    SplitFour("abc", "0", "10", "10");
    assert "abc_0_10_10" == "abc" + [SEP] + ("0" + [SEP] + ("10" + [SEP] + "10"));
    ParseU64RejectsNonDigit("abc", 0);
  }

  /** The fields of `1_0_10_5`: account 1, offset 0, 10 nonces, stagger 5. */
  lemma StaggeredPlotFields()
    ensures Split("1_0_10_5") == ["1", "0", "10", "5"]
    ensures ParseU64("1") == Some(1) && ParseU64("0") == Some(0)
    ensures ParseI64("10") == Some(10) && ParseI64("5") == Some(5)
  {
    SplitFour("1", "0", "10", "5");
    assert "1_0_10_5" == "1" + [SEP] + ("0" + [SEP] + ("10" + [SEP] + "5"));
    assert NatToString(1) == "1" && NatToString(0) == "0";
    assert IntToString(10) == "10" && IntToString(5) == "5";
    ParseU64Rendered(1);
    ParseU64Rendered(0);
    ParseI64Rendered(10);
    ParseI64Rendered(5);
  }

  /** A plot whose stagger (5) differs from its nonce count (10) is rejected
      as not optimized once the path is known to be a file. */
  lemma StaggeredPlotRejected(out: Option<string>, fs: FsFacts)
    requires fs.pathExists && fs.isFile
    ensures NewPlot("1_0_10_5", out, fs) == Failure(NotOptimized)
  {
    StaggeredPlotFields();
    NotOptimizedBeforeSize("1_0_10_5", out, fs);
  }

  /** The account id of the plot file used by the source's test. */
  const TEST_ID: u64 := 11253871103436815155

  /** The source's test: a ten-nonce optimized plot of 2621440 bytes named
      `11253871103436815155_0_10_10` converts to `11253871103436815155_0_10`. */
  lemma TestPlot(fs: FsFacts)
    requires fs.pathExists && fs.isFile && fs.fileLen == 2621440
    ensures var path := NatToString(TEST_ID) + "_0_10_10";
      && NewPlot(path, None, fs) == Success(Plot(TEST_ID, 0, 10, 2621440, path, None))
      && Poc2Name(NewPlot(path, None, fs).value) == NatToString(TEST_ID) + "_0_10"
  {
    assert NatToString(0) == "0" && IntToString(10) == "10";
    var name := Poc2Name(Plot(TEST_ID, 0, 10, 0, "", None));
    assert name == NatToString(TEST_ID) + "_0_10";
    assert name + [SEP] + IntToString(10) == NatToString(TEST_ID) + "_0_10_10";
    RenderedNameDecodes(TEST_ID, 0, 10, None, fs);
  }

  /** In the source's test the plot is converted in place and renamed to
      `11253871103436815155_0_10`. */
  lemma TestPlotRenamed(fs: FsFacts)
    requires fs.pathExists && fs.isFile && fs.fileLen == 2621440
    ensures var r := NewPlot(NatToString(TEST_ID) + "_0_10_10", None, fs);
      r.Success? && RenameTarget(r.value) == NatToString(TEST_ID) + "_0_10"
  {
    TestPlot(fs);
    var path := NatToString(TEST_ID) + "_0_10_10";
    assert '/' !in path;
    BareNameRenamed(NewPlot(path, None, fs).value);
  }

  /** A plot stored under its PoC2 name in a directory named like a PoC1 plot
      of the same fields followed by `_` (for instance `1_0_10_10_/1_0_10`) is
      accepted: the first four fields come from the directory. */
  lemma NestedPlotAccepted(id: u64, offset: u64, nonces: i64, out: Option<string>, fs: FsFacts)
    requires fs.pathExists && fs.isFile && I64_MIN <= nonces * NONCE_SIZE <= I64_MAX
    requires fs.fileLen == AsU64(nonces * NONCE_SIZE) && (out.Some? ==> fs.outIsDir)
    ensures var short := Poc2Name(Plot(id, offset, nonces, 0, "", None));
      var path := short + [SEP] + IntToString(nonces) + [SEP] + ("/" + short);
      NewPlot(path, out, fs) == Success(Plot(id, offset, nonces, fs.fileLen, path, out))
  {
    var short := Poc2Name(Plot(id, offset, nonces, 0, "", None));
    var name := short + [SEP] + IntToString(nonces);
    RenderedNameDecodes(id, offset, nonces, out, fs);
    ExtraFieldsIgnored(name, "/" + short, out, fs);
  }

  /** A copy can target the plot itself: converting such a nested plot into
      its own directory writes to its own path. */
  lemma CopyTargetCanBePlot(id: u64, offset: u64, nonces: i64, fs: FsFacts)
    requires fs.pathExists && fs.isFile && fs.outIsDir && I64_MIN <= nonces * NONCE_SIZE <= I64_MAX
    requires fs.fileLen == AsU64(nonces * NONCE_SIZE)
    ensures var short := Poc2Name(Plot(id, offset, nonces, 0, "", None));
      var dir := short + [SEP] + IntToString(nonces) + [SEP];
      var path := dir + ("/" + short);
      var p := Plot(id, offset, nonces, fs.fileLen, path, Some(dir));
      NewPlot(path, Some(dir), fs) == Success(p) && CopyTarget(p, dir) == path
  {
    var short := Poc2Name(Plot(id, offset, nonces, 0, "", None));
    var dir := short + [SEP] + IntToString(nonces) + [SEP];
    NestedPlotAccepted(id, offset, nonces, Some(dir), fs);
    CopyTargetUnder(dir, Plot(id, offset, nonces, fs.fileLen, dir + ("/" + short), Some(dir)));
  }

  /** The copy target under a directory spelled without a trailing `/`. */
  lemma CopyTargetUnder(dir: string, p: Plot)
    requires |dir| > 0 && dir[|dir| - 1] == SEP
    ensures CopyTarget(p, dir) == dir + ("/" + Poc2Name(p))
  {
  }
}
