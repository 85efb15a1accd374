/**
 * The path handling of `main` (chronosphere.cpp:13-45): the single
 * argument names a `.tau2015` file whose first three whitespace-separated
 * tokens are the names of the Verilog, Liberty and SPEF inputs, in any
 * order; each is routed by its extension and placed next to the argument.
 *
 * `std::string::size_type` arithmetic is kept: `find_last_of` returns
 * `NPOS` (2^64 - 1) when the character is absent, and `NPOS + 1` wraps to 0.
 */
module Chronosphere {

  /** `std::string::npos`: the largest 64-bit unsigned value. */
  const NPOS: nat := 0xFFFF_FFFF_FFFF_FFFF

  /** A `std::string`: its length is below `max_size()`, itself below `npos`. */
  type CppString = s: string | |s| < NPOS witness ""

  /** `i + 1` in 64-bit unsigned arithmetic: `NPOS + 1` wraps to 0. */
  function Succ(i: nat): (r: nat)
    requires i <= NPOS
    ensures r == (i + 1) % (NPOS + 1)
  {
    if i == NPOS then 0 else i + 1
  }

  /** `s.find_last_of(c)` for a one-character set: the last index of `c`, or `NPOS`. */
  function FindLastOf(s: CppString, c: char): (r: nat)
    ensures r == NPOS <==> c !in s
    ensures r != NPOS ==> r < |s| && s[r] == c && c !in s[r + 1..]
  {
    if s == [] then NPOS
    else if s[|s| - 1] == c then |s| - 1
    else
      var r := FindLastOf(s[..|s| - 1], c);
      assert s == s[..|s| - 1] + [s[|s| - 1]];
      if r != NPOS then
        assert s[r + 1..] == s[..|s| - 1][r + 1..] + [s[|s| - 1]];
        r
      else r
  }

  /** `s.substr(pos, count)`: at most `count` characters from `pos`; `pos` past the end throws, so it is required. */
  function Substr(s: string, pos: nat, count: nat): string
    requires pos <= |s|
  {
    if pos + count <= |s| then s[pos..pos + count] else s[pos..]
  }

  /** chronosphere.cpp:29-30: the argument up to its last '/', or the whole argument when it has none. */
  function BasePath(arg: CppString): string
  {
    var index := FindLastOf(arg, '/');
    Substr(arg, 0, index)
  }

  /** chronosphere.cpp:36-38: what follows the last '.', or the whole name when it has none. */
  function Extension(filename: CppString): string
  {
    var index := FindLastOf(filename, '.');
    Substr(filename, Succ(index), |filename|)
  }

  /** The base path and the rest of the argument after its last '/' rebuild the argument. */
  lemma BasePathSplit(arg: CppString)
    ensures '/' in arg ==> exists rest :: arg == BasePath(arg) + "/" + rest && '/' !in rest
    ensures '/' !in arg ==> BasePath(arg) == arg
  {
    var index := FindLastOf(arg, '/');
    if '/' in arg {
      var rest := arg[index + 1..];
      assert arg == arg[..index] + "/" + rest;
    }
  }

  /** The extension is the part after the last '.': a suffix that holds no '.', or the whole name when no '.' occurs. */
  lemma ExtensionSuffix(filename: CppString)
    ensures '.' !in Extension(filename)
    ensures '.' in filename ==> filename == filename[..|filename| - |Extension(filename)| - 1] + "." + Extension(filename)
    ensures '.' !in filename ==> Extension(filename) == filename
  {
    var index := FindLastOf(filename, '.');
    if '.' in filename {
      assert Extension(filename) == filename[index + 1..];
      assert filename == filename[..index] + "." + filename[index + 1..];
    }
  }

  /** The three input paths; a path never set stays empty. */
  datatype InputFiles = InputFiles(vfile: string, libfile: string, speffile: string)

  /** What `main` goes on to do. */
  datatype Launch = Usage | Parse(files: InputFiles)

  /** chronosphere.cpp:38-43: route one filename by its extension; any other extension changes nothing. */
  function Route(f: InputFiles, basePath: string, filename: CppString): InputFiles
  {
    var ext := Extension(filename);
    var path := basePath + "/" + filename;
    if ext == "v" then f.(vfile := path)
    else if ext == "lib" then f.(libfile := path)
    else if ext == "spef" then f.(speffile := path)
    else f
  }

  /** The paths after routing `names` in order, starting from three empty paths. */
  function RouteAll(basePath: string, names: seq<CppString>): InputFiles
  {
    if names == [] then InputFiles("", "", "")
    else Route(RouteAll(basePath, names[..|names| - 1]), basePath, names[|names| - 1])
  }

  /**
   * chronosphere.cpp:35: the filename after the `i`-th `infile >> filename`
   * of a file holding the tokens `tokens`. Once the tokens run out the read
   * fails and leaves `filename` as it was: the last token, or empty.
   */
  function FilenameAt(tokens: seq<CppString>, i: nat): CppString
  {
    if i < |tokens| then tokens[i]
    else if tokens == [] then ""
    else tokens[|tokens| - 1]
  }

  /** A failed read keeps the filename of the read before (empty before the first). */
  lemma FilenameAtNext(tokens: seq<CppString>, i: nat)
    ensures FilenameAt(tokens, i) == if i < |tokens| then tokens[i] else if i == 0 then "" else FilenameAt(tokens, i - 1)
  {
  }

  lemma RouteAllSnoc(basePath: string, names: seq<CppString>, i: nat)
    requires i < |names|
    ensures RouteAll(basePath, names[..i + 1]) == Route(RouteAll(basePath, names[..i]), basePath, names[i])
  {
    assert names[..i + 1][..i] == names[..i];
  }

  /** The last index of `names` whose extension is `ext`, or -1. */
  function LastWith(names: seq<CppString>, ext: string): (r: int)
    ensures -1 <= r < |names|
    ensures r >= 0 ==> Extension(names[r]) == ext
    ensures forall j :: r < j < |names| ==> Extension(names[j]) != ext
  {
    if names == [] then -1
    else
      var last := names[|names| - 1];
      if Extension(last) == ext then |names| - 1
      else
        var init := names[..|names| - 1];
        var r := LastWith(init, ext);
        assert forall j :: r < j < |init| ==> names[j] == init[j];
        r
  }

  /** The path chosen for extension `ext`: the last name with that extension next to the base path, else empty. */
  function Chosen(basePath: string, names: seq<CppString>, ext: string): string
  {
    var j := LastWith(names, ext);
    if j < 0 then "" else basePath + "/" + names[j]
  }

  /**
   * Routing in order is the same as choosing, for each extension, the last
   * name that carries it: a later name overwrites an earlier one, other
   * extensions are ignored.
   */
  lemma {:induction false} RouteAllChoosesLast(basePath: string, names: seq<CppString>)
    ensures RouteAll(basePath, names)
            == InputFiles(Chosen(basePath, names, "v"), Chosen(basePath, names, "lib"), Chosen(basePath, names, "spef"))
  {
    if names != [] {
      RouteAllChoosesLast(basePath, names[..|names| - 1]);
    }
  }

  /** A name whose extension is none of the three changes nothing. */
  lemma RouteIgnores(f: InputFiles, basePath: string, filename: CppString)
    requires Extension(filename) !in {"v", "lib", "spef"}
    ensures Route(f, basePath, filename) == f
  {
  }

  /**
   * chronosphere.cpp:15-45. `argv` is the argument vector (its length is
   * `args`), `tokens` the whitespace-separated words of the file `argv[1]`.
   * Any count other than 2 ends in the usage message; otherwise three reads
   * are routed by extension and the three paths come out.
   */
  method ResolveInputs(argv: seq<CppString>, tokens: seq<CppString>) returns (launch: Launch)
    ensures |argv| != 2 <==> launch == Usage
    ensures |argv| == 2 ==>
              var names: seq<CppString> := [FilenameAt(tokens, 0), FilenameAt(tokens, 1), FilenameAt(tokens, 2)];
              var base := BasePath(argv[1]);
              launch == Parse(InputFiles(Chosen(base, names, "v"), Chosen(base, names, "lib"), Chosen(base, names, "spef")))
  {
    if |argv| != 2 {
      return Usage;
    }
    var index := FindLastOf(argv[1], '/');
    var basePath := Substr(argv[1], 0, index);
    ghost var names: seq<CppString> := [FilenameAt(tokens, 0), FilenameAt(tokens, 1), FilenameAt(tokens, 2)];
    var filename: CppString := "";
    var vfile, libfile, speffile := "", "", "";
    for i := 0 to 3
      invariant InputFiles(vfile, libfile, speffile) == RouteAll(basePath, names[..i])
      invariant filename == (if i == 0 then "" else names[i - 1])
    {
      if i < |tokens| {
        filename := tokens[i];
      }
      FilenameAtNext(tokens, i);
      ghost var before := InputFiles(vfile, libfile, speffile);
      index := FindLastOf(filename, '.');
      var ext := Substr(filename, Succ(index), |filename|);
      if ext == "v" {
        vfile := basePath + "/" + filename;
      } else if ext == "lib" {
        libfile := basePath + "/" + filename;
      } else if ext == "spef" {
        speffile := basePath + "/" + filename;
      }
      assert InputFiles(vfile, libfile, speffile) == Route(before, basePath, filename);
      RouteAllSnoc(basePath, names, i);
    }
    assert names[..3] == names;
    RouteAllChoosesLast(basePath, names);
    launch := Parse(InputFiles(vfile, libfile, speffile));
  }

  /** The argument `dir/x.tau2015` has base path `dir`. */
  lemma BasePathExample()
    ensures BasePath("dir/x.tau2015") == "dir"
  {
    var arg: CppString := "dir/x.tau2015";
    assert arg[3] == '/';
    assert '/' !in arg[4..];
  }

  /** `c.spef` has extension `spef`; `Makefile`, with no '.', is compared whole. */
  lemma ExtensionExamples()
    ensures Extension("c.spef") == "spef"
    ensures Extension("Makefile") == "Makefile"
  {
    var f: CppString := "c.spef";
    assert f[1] == '.' && '.' !in f[2..];
    ExtensionSuffix("Makefile");
  }
}
