/**
 * The command-line handling at the start of main in main.go: the two
 * positional arguments, the split of the output name at its last dot into a
 * base file name and an extension, and the check that the extension is one
 * the program can encode.
 *
 * Go's `strings.Split` and `strings.Join` are modelled as the functions
 * Split and Join below, for a one-character separator.
 */
module CommandLine {
  import opened Wrappers

  /** Go's `strings.Split(s, sep)`: the pieces of `s` between occurrences of `sep`. */
  function Split(s: string, sep: char): (parts: seq<string>)
    ensures |parts| >= 1
    ensures forall p :: p in parts ==> sep !in p
    decreases |s|
  {
    if s == [] then [""]
    else
      var rest := Split(s[1..], sep);
      if s[0] == sep then [""] + rest
      else [[s[0]] + rest[0]] + rest[1..]
  }

  /** Go's `strings.Join(parts, sep)`: the pieces with `sep` between neighbours. */
  function Join(parts: seq<string>, sep: char): string
  {
    if |parts| == 0 then ""
    else if |parts| == 1 then parts[0]
    else parts[0] + [sep] + Join(parts[1..], sep)
  }

  /** Joining the pieces again gives back the split string. */
  lemma {:induction false} JoinSplit(s: string, sep: char)
    ensures Join(Split(s, sep), sep) == s
    decreases |s|
  {
    if s != [] {
      var rest := Split(s[1..], sep);
      JoinSplit(s[1..], sep);
      if s[0] == sep {
        assert Split(s, sep) == [""] + rest;
        assert Join([""] + rest, sep) == "" + [sep] + Join(rest, sep);
      } else if |rest| == 1 {
        assert Split(s, sep) == [[s[0]] + rest[0]];
      } else {
        var parts := Split(s, sep);
        assert parts == [[s[0]] + rest[0]] + rest[1..];
        assert parts[1..] == rest[1..];
        assert Join(rest, sep) == rest[0] + [sep] + Join(rest[1..], sep);
        assert s == [s[0]] + s[1..];
      }
    }
  }

  /** A string without the separator is a single piece. */
  lemma {:induction false} SplitWithoutSeparator(s: string, sep: char)
    requires sep !in s
    ensures Split(s, sep) == [s]
    decreases |s|
  {
    if s != [] {
      SplitWithoutSeparator(s[1..], sep);
      assert s == [s[0]] + s[1..];
    }
  }

  /** A separator-free piece followed by the separator opens the split. */
  lemma {:induction false} SplitAfterPiece(p: string, sep: char, t: string)
    requires sep !in p
    ensures Split(p + [sep] + t, sep) == [p] + Split(t, sep)
    decreases |p|
  {
    if p == [] {
      assert p + [sep] + t == [sep] + t;
    } else {
      SplitAfterPiece(p[1..], sep, t);
      var s := p + [sep] + t;
      assert s[0] == p[0] && s[1..] == p[1..] + [sep] + t;
      assert [p[0]] + p[1..] == p;
    }
  }

  /** Splitting a join of separator-free pieces gives back the pieces. */
  lemma {:induction false} SplitJoin(parts: seq<string>, sep: char)
    requires |parts| >= 1
    requires forall p :: p in parts ==> sep !in p
    ensures Split(Join(parts, sep), sep) == parts
    decreases |parts|
  {
    if |parts| == 1 {
      SplitWithoutSeparator(parts[0], sep);
    } else {
      assert parts[0] in parts;
      forall p | p in parts[1..] ensures sep !in p {
        assert p in parts;
      }
      SplitJoin(parts[1..], sep);
      SplitAfterPiece(parts[0], sep, Join(parts[1..], sep));
    }
  }

  /** The string holds the separator exactly when it splits into two or more pieces. */
  lemma {:induction false} SeparatorIffSeveralPieces(s: string, sep: char)
    ensures sep in s <==> |Split(s, sep)| >= 2
    decreases |s|
  {
    if sep !in s {
      SplitWithoutSeparator(s, sep);
    } else if s[0] != sep {
      SeparatorIffSeveralPieces(s[1..], sep);
      assert s == [s[0]] + s[1..];
    }
  }

  /** Joining a list with one more piece adds the separator and that piece. */
  lemma {:induction false} JoinAppend(parts: seq<string>, q: string, sep: char)
    requires |parts| >= 1
    ensures Join(parts + [q], sep) == Join(parts, sep) + [sep] + q
    decreases |parts|
  {
    if |parts| == 1 {
      assert parts + [q] == [parts[0], q];
    } else {
      JoinAppend(parts[1..], q, sep);
      assert (parts + [q])[1..] == parts[1..] + [q];
    }
  }

  /** The output argument cut into the base file name and the extension. */
  datatype OutputName = OutputName(filename: string, extension: string)

  /**
   * The last piece of the split at '.' is the extension and the others,
   * joined with '.', the file name. So the extension is the text after the
   * last dot, and file name, dot and extension spell the argument; without a
   * dot the extension is the whole argument and the file name is empty.
   */
  function SplitExtension(output: string): (r: OutputName)
    ensures '.' !in r.extension
    ensures '.' in output ==> r.filename + "." + r.extension == output
    ensures '.' !in output ==> r.filename == "" && r.extension == output
  {
    var parts := Split(output, '.');
    var n := |parts|;
    var r := OutputName(Join(parts[..n - 1], '.'), parts[n - 1]);
    JoinSplit(output, '.');
    SeparatorIffSeveralPieces(output, '.');
    assert parts[n - 1] in parts;
    if n >= 2 then
      assert parts == parts[..n - 1] + [parts[n - 1]];
      JoinAppend(parts[..n - 1], parts[n - 1], '.');
      r
    else
      r
  }

  /** The extensions the program can encode, as `allowed_outputs` lists them. */
  const AllowedOutputs: seq<string> := ["jpg", "jpeg", "png"]

  /**
   * The loop over `allowed_outputs` that sets `valid_ext` when one of them
   * equals the extension: the extension is accepted exactly when it is
   * "jpg", "jpeg" or "png".
   */
  method IsAllowedExtension(extension: string) returns (validExt: bool)
    ensures validExt <==> extension == "jpg" || extension == "jpeg" || extension == "png"
  {
    validExt := false;
    var n := 0;
    while n < |AllowedOutputs|
      invariant 0 <= n <= |AllowedOutputs|
      invariant validExt <==> extension in AllowedOutputs[..n]
    {
      if AllowedOutputs[n] == extension {
        validExt := true;
      }
      assert AllowedOutputs[..n + 1] == AllowedOutputs[..n] + [AllowedOutputs[n]];
      n := n + 1;
    }
    assert AllowedOutputs[..n] == AllowedOutputs;
  }

  /** The ways the command line is refused before any image work. */
  datatype ArgumentError =
    | MissingArguments(given: nat)
    | ExtensionNotAllowed(extension: string)

  /** The input file name and the output name, split at its last dot. */
  datatype Arguments = Arguments(inputFilename: string, output: OutputName)

  /**
   * The argument handling of main for `args`, the command line without the
   * program name: fewer than two arguments fail (Go panics indexing them),
   * an extension outside jpg, jpeg and png fails, and otherwise the first
   * argument is the input and the second is split into name and extension.
   * Further arguments are ignored.
   */
  method ParseArguments(args: seq<string>) returns (r: Result<Arguments, ArgumentError>)
    ensures |args| < 2 ==> r == Failure(MissingArguments(|args|))
    ensures |args| >= 2 ==>
      var out := SplitExtension(args[1]);
      && (r.Success? <==> out.extension in AllowedOutputs)
      && (r.Success? ==> r.value == Arguments(args[0], out))
      && (r.Failure? ==> r.error == ExtensionNotAllowed(out.extension))
  {
    if |args| < 2 {
      return Failure(MissingArguments(|args|));
    }
    var inputFilename := args[0];
    var output := args[1];
    var out := SplitExtension(output);
    var validExt := IsAllowedExtension(out.extension);
    if !validExt {
      return Failure(ExtensionNotAllowed(out.extension));
    }
    r := Success(Arguments(inputFilename, out));
  }
}
