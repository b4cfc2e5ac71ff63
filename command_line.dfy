/** Huffman/data/CommandLineArgs.cs: the mode selector run on the program's
    arguments. `File.Exists` is the parameter `fileExists`. */
module CommandLine {

  /** The parsed arguments: three mode flags and the paths they apply to. */
  datatype CommandLineArgs = CommandLineArgs(isExtract: bool, isCompress: bool, isCreateEmpty: bool, paths: seq<string>)

  /** A fresh `CommandLineArgs`: no flag set, no path. */
  const NoMode: CommandLineArgs := CommandLineArgs(false, false, false, [])

  /** Upper-casing of one character, for the letters whose case
      `StringComparison.OrdinalIgnoreCase` folds here: ASCII `a`-`z`. */
  function ToUpper(c: char): char
  {
    if 'a' <= c <= 'z' then (c as int - 32) as char else c
  }

  /** `a.Equals(b, StringComparison.OrdinalIgnoreCase)`. */
  predicate EqualsIgnoreCase(a: string, b: string)
  {
    |a| == |b| && forall i | 0 <= i < |a| :: ToUpper(a[i]) == ToUpper(b[i])
  }

  /** `CommandLineArgs.Parse(args)`. */
  function Parse(args: seq<string>, fileExists: string -> bool): (r: CommandLineArgs)
    ensures !r.isCompress || !r.isCreateEmpty
    ensures !r.isCompress || !r.isExtract
    ensures !r.isCreateEmpty || !r.isExtract
    ensures args == [] ==> r == NoMode
    ensures r.isCompress <==> args != [] && EqualsIgnoreCase(args[0], "--compress")
    ensures r.isCreateEmpty <==> args != [] && EqualsIgnoreCase(args[0], "--create-empty")
    ensures r.isExtract <==>
      (args != [] && !EqualsIgnoreCase(args[0], "--compress")
       && !EqualsIgnoreCase(args[0], "--create-empty") && fileExists(args[0]))
    ensures r.isCompress || r.isCreateEmpty ==> r.paths == args[1..]
    ensures r.isExtract ==> r.paths == [args[0]]
    ensures !r.isCompress && !r.isCreateEmpty && !r.isExtract ==> r == NoMode
  {
    if args == [] then NoMode
    else if EqualsIgnoreCase(args[0], "--compress") then CommandLineArgs(false, true, false, args[1..])
    else if EqualsIgnoreCase(args[0], "--create-empty") then CommandLineArgs(false, false, true, args[1..])
    else if fileExists(args[0]) then CommandLineArgs(true, false, false, [args[0]])
    else NoMode
  }

  /** The two option names differ whatever the case, so no argument selects both. */
  lemma OptionsDistinct(a: string)
    ensures !(EqualsIgnoreCase(a, "--compress") && EqualsIgnoreCase(a, "--create-empty"))
  {
    if |a| == |"--compress"| {
      assert |"--compress"| != |"--create-empty"|;
    }
  }

  /** Case does not matter for the options: `--COMPRESS` or `--Create-Empty`
      select the same mode and keep the remaining arguments as paths. */
  lemma OptionCaseInsensitive(args: seq<string>, fileExists: string -> bool)
    ensures Parse(["--COMPRESS"] + args, fileExists) == CommandLineArgs(false, true, false, args)
    ensures Parse(["--Create-Empty"] + args, fileExists) == CommandLineArgs(false, false, true, args)
  {
    assert EqualsIgnoreCase("--COMPRESS", "--compress");
    assert EqualsIgnoreCase("--Create-Empty", "--create-empty");
    assert (["--COMPRESS"] + args)[1..] == args;
    assert (["--Create-Empty"] + args)[1..] == args;
  }

  /** Only the first argument selects the mode: an option after a file name is
      ignored, and so is everything after the file name. */
  lemma ExtractTakesFirst(path: string, rest: seq<string>, fileExists: string -> bool)
    requires fileExists(path) && !EqualsIgnoreCase(path, "--compress") && !EqualsIgnoreCase(path, "--create-empty")
    ensures Parse([path] + rest, fileExists) == CommandLineArgs(true, false, false, [path])
  {
  }
}
