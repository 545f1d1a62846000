/**
  `Wpify::Parser`: reads wp-config style files and collects their constants
  and variables into one Hash. The object keeps its options, its list of
  files and the Hash it fills in place. The file system is a map from path
  to text; a path that is not a key is a file that does not exist.
 */
module Parser {
  import opened WpConfig

  /** An argument of `Parser.new`: a file name or an options Hash. */
  datatype Arg = FileArg(path: string) | HashArg(options: map<string, string>)

  /** `args.last.kind_of?(Hash) ? args.pop : Hash.new`, and what is left. */
  function SplitArgs(args: seq<Arg>): (map<string, string>, seq<Arg>)
  {
    if |args| > 0 && args[|args| - 1].HashArg? then (args[|args| - 1].options, args[..|args| - 1])
    else (map[], args)
  }

  /** The names of the file arguments, in order. */
  function Paths(files: seq<Arg>): (r: seq<string>)
    ensures |r| <= |files|
  {
    if files == [] then []
    else
      var last := files[|files| - 1];
      Paths(files[..|files| - 1]) + (if last.FileArg? then [last.path] else [])
  }

  /** The files a caller may pass: names, with at most one Hash, at the end. */
  predicate WellPlaced(args: seq<Arg>)
  {
    forall k :: 0 <= k < |args| - 1 ==> args[k].FileArg?
  }

  /** A trailing Hash is taken as the options and is never a file; without
      one the options are empty and every argument is a file. Either way
      the files keep the order they were given in. */
  lemma {:induction false} SplitArgsOptions(args: seq<Arg>)
    requires WellPlaced(args)
    ensures var (options, files) := SplitArgs(args);
      && (forall k :: 0 <= k < |files| ==> files[k].FileArg?)
      && files == (if |args| > 0 && args[|args| - 1].HashArg? then args[..|args| - 1] else args)
      && options == (if |args| > 0 && args[|args| - 1].HashArg? then args[|args| - 1].options else map[])
      && |Paths(files)| == |files|
  {
    var files := SplitArgs(args).1;
    forall k | 0 <= k < |files| ensures files[k].FileArg? {
      assert files[k] == args[k];
    }
    PathsOfFiles(files);
  }

  /** A text is a file name exactly when a file argument carries it. */
  lemma {:induction false} PathsMembers(files: seq<Arg>)
    ensures forall path :: path in Paths(files) <==> FileArg(path) in files
    decreases |files|
  {
    if files != [] {
      var init, last := files[..|files| - 1], files[|files| - 1];
      assert files == init + [last];
      PathsMembers(init);
    }
  }

  lemma {:induction false} PathsOfFiles(files: seq<Arg>)
    requires forall k :: 0 <= k < |files| ==> files[k].FileArg?
    ensures |Paths(files)| == |files|
    ensures forall k :: 0 <= k < |files| ==> Paths(files)[k] == files[k].path
    decreases |files|
  {
    if files != [] {
      var init := files[..|files| - 1];
      forall k | 0 <= k < |init| ensures init[k].FileArg? {
        assert init[k] == files[k];
      }
      PathsOfFiles(init);
    }
  }

  class Parser {
    var options: map<string, string>
    var files: seq<Arg>
    var wpconfig: map<string, string>

    /** `initialize`: split the arguments, then parse. */
    constructor (fs: map<string, string>, args: seq<Arg>)
      requires WellPlaced(args)
      ensures (options, files) == SplitArgs(args)
      ensures forall k :: 0 <= k < |files| ==> files[k].FileArg?
      ensures wpconfig == ParseFiles(fs, Paths(files))
    {
      var split := SplitArgs(args);
      options := split.0;
      files := split.1;
      new;
      SplitArgsOptions(args);
      var _ := Parse(fs);
    }

    /** `parse`: start from an empty Hash; for every existing file, store
        each constant and then each variable, in the order `scan` finds
        them. */
    method Parse(fs: map<string, string>) returns (config: map<string, string>)
      requires forall k :: 0 <= k < |files| ==> files[k].FileArg?
      modifies this`wpconfig
      ensures wpconfig == ParseFiles(fs, Paths(files))
      ensures config == wpconfig
    {
      wpconfig := map[];
      var i := 0;
      while i < |files|
        invariant 0 <= i <= |files|
        invariant wpconfig == ParseFiles(fs, Paths(files[..i]))
      {
        var f := files[i].path;
        assert files[..i + 1][..i] == files[..i];
        assert Paths(files[..i + 1]) == Paths(files[..i]) + [f];
        if f in fs {
          var raw := fs[f];
          ghost var before := wpconfig;
          StoreEach(Scan(ConstantPattern, raw));
          StoreEach(Scan(VarPattern, raw));
          FileConstantsThenVariables(before, raw);
        }
        i := i + 1;
      }
      assert files[..i] == files;
      config := wpconfig;
    }

    /** One `scan(...).each` block: store every match, in order, under its
        downcased name. */
    method StoreEach(entries: seq<Assignment>)
      modifies this`wpconfig
      ensures wpconfig == Store(old(wpconfig), entries)
    {
      var j := 0;
      while j < |entries|
        invariant 0 <= j <= |entries|
        invariant wpconfig == Store(old(wpconfig), entries[..j])
      {
        assert entries[..j + 1][..j] == entries[..j];
        wpconfig := wpconfig[Key(entries[j]) := entries[j].value];
        j := j + 1;
      }
      assert entries[..j] == entries;
    }

    /** `Parser.load`: the Hash a new parser builds from the arguments. */
    static method Load(fs: map<string, string>, args: seq<Arg>) returns (config: map<string, string>)
      requires WellPlaced(args)
      ensures config == ParseFiles(fs, Paths(SplitArgs(args).1))
      ensures Clean(config)
    {
      var parser := new Parser(fs, args);
      config := parser.wpconfig;
      ParseFilesClean(fs, Paths(SplitArgs(args).1));
    }
  }

  /** With no file arguments, or only files that do not exist, the Hash is
      empty, whatever options are given. */
  lemma {:induction false} NoFilesNoEntries(fs: map<string, string>, args: seq<Arg>)
    requires WellPlaced(args)
    requires forall k :: 0 <= k < |args| ==> args[k].FileArg? ==> args[k].path !in fs
    ensures ParseFiles(fs, Paths(SplitArgs(args).1)) == map[]
  {
    var files := SplitArgs(args).1;
    SplitArgsOptions(args);
    PathsOfFiles(files);
    var paths := Paths(files);
    forall k | 0 <= k < |paths| ensures paths[k] !in fs {
      assert files[k] == args[k];
    }
    NothingFromMissing(fs, paths);
  }

  lemma {:induction false} NothingFromMissing(fs: map<string, string>, paths: seq<string>)
    requires forall k :: 0 <= k < |paths| ==> paths[k] !in fs
    ensures ParseFiles(fs, paths) == map[]
    decreases |paths|
  {
    if paths != [] {
      var init := paths[..|paths| - 1];
      forall k | 0 <= k < |init| ensures init[k] !in fs {
        assert init[k] == paths[k];
      }
      NothingFromMissing(fs, init);
    }
  }

  // ---------------------------------------------------------------------
  // Files of a single statement
  // ---------------------------------------------------------------------

  /** A character that no piece contains is not in their concatenation. */
  lemma {:induction false} AbsentFromConcat(c: char, pieces: seq<string>)
    requires forall k :: 0 <= k < |pieces| ==> c !in pieces[k]
    ensures c !in Concat(pieces)
    decreases |pieces|
  {
    if pieces != [] {
      var rest := pieces[1..];
      forall k | 0 <= k < |rest| ensures c !in rest[k] {
        assert rest[k] == pieces[k + 1];
      }
      AbsentFromConcat(c, rest);
    }
  }

  /** `define('<name>', '<value>')` has a `$` only where its name or value has. */
  lemma DefineCallDollarFree(name: string, value: string)
    requires '$' !in name && '$' !in value
    ensures '$' !in Concat(DefinePieces(name, value, Single))
  {
    AbsentFromConcat('$', DefinePieces(name, value, Single));
  }

  /** A file holding one `define` statement, such as
      `define('DB_NAME', 'wordpress');`, stores the downcased name with the
      value, and nothing else, when neither contains a `$`. */
  lemma DefineFile(fs: map<string, string>, path: string, name: string, value: string)
    requires path in fs && fs[path] == DefineStatement(name, value)
    requires WellFormed(Assignment(name, value)) && '$' !in name && '$' !in value
    ensures ParseFiles(fs, [path]) == map[Downcase(name) := value]
  {
    DefineCallDollarFree(name, value);
    var text := fs[path];
    assert forall k :: 0 <= k < |text| ==> text[k] in text;
    ScanNone(VarPattern, text);
    DefineRoundTrip(name, value);
    SingleEntryFile(fs, path, Assignment(name, value));
  }

  /** A file holding one variable assignment, such as
      `$table_prefix = "wp_";`, stores the downcased name with the value,
      and nothing else: the statement has two quotes, and a constant
      definition needs four. */
  lemma AssignFile(fs: map<string, string>, path: string, name: string, value: string)
    requires path in fs && fs[path] == AssignStatement(name, value)
    requires WellFormed(Assignment(name, value)) && AllIn(WordClass, name)
    ensures ParseFiles(fs, [path]) == map[Downcase(name) := value]
  {
    AssignHasNoConstant(name, value);
    AssignRoundTrip(name, value);
    SingleEntryFile(fs, path, Assignment(name, value));
  }

  /** After the define call only the assignment's two quotes are left. */
  lemma DefineThenAssignConstants(dName: string, dValue: string, aName: string, aValue: string)
    requires WellFormed(Assignment(dName, dValue)) && QuoteFree(aName) && QuoteFree(aValue)
    ensures Scan(ConstantPattern, DefineStatement(dName, dValue) + "\n" + AssignStatement(aName, aValue))
         == [Assignment(dName, dValue)]
  {
    var dPieces := DefinePieces(dName, dValue, Single);
    var assign := AssignStatement(aName, aValue);
    Regroup(Concat(dPieces), DefineStatement(dName, dValue), assign);
    DefineShape(dName, dValue, Single);
    AssignQuotes(aName, aValue);
    QuoteCountConcat(";\n", assign);
    ConstantThenFewQuotes(dPieces, dName, dValue, ";\n" + assign);
  }

  /** No `$` comes before the assignment. */
  lemma DefineThenAssignVariables(dName: string, dValue: string, aName: string, aValue: string)
    requires '$' !in dName && '$' !in dValue
    requires WellFormed(Assignment(aName, aValue)) && AllIn(WordClass, aName)
    ensures Scan(VarPattern, DefineStatement(dName, dValue) + "\n" + AssignStatement(aName, aValue))
         == [Assignment(aName, aValue)]
  {
    var call := Concat(DefinePieces(dName, dValue, Single));
    Regroup(call, DefineStatement(dName, dValue), AssignStatement(aName, aValue));
    DefineCallDollarFree(dName, dValue);
    AssignShape(aName, aValue, Double);
    ScanLast(VarPattern, call + ";\n", AssignPieces(aName, aValue, Double), aName, aValue);
  }

  /** A statement ending in `;`, a line break, then more text. */
  lemma Regroup(call: string, statement: string, rest: string)
    requires statement == call + ";"
    ensures statement + "\n" + rest == call + (";\n" + rest)
    ensures statement + "\n" + rest == (call + ";\n") + rest
  {
    assert ";" + "\n" == ";\n";
  }

  /** A file holding a `define` statement and, on the next line, a
      variable assignment yields the constant, then the variable. */
  lemma DefineThenAssignEntries(dName: string, dValue: string, aName: string, aValue: string)
    requires WellFormed(Assignment(dName, dValue)) && '$' !in dName && '$' !in dValue
    requires WellFormed(Assignment(aName, aValue)) && AllIn(WordClass, aName)
    ensures FileEntries(DefineStatement(dName, dValue) + "\n" + AssignStatement(aName, aValue))
         == [Assignment(dName, dValue), Assignment(aName, aValue)]
  {
    DefineThenAssignConstants(dName, dValue, aName, aValue);
    DefineThenAssignVariables(dName, dValue, aName, aValue);
  }

  /** Such a file stores both keys; the variable's is stored last. */
  lemma DefineThenAssignFile(fs: map<string, string>, path: string,
                             dName: string, dValue: string, aName: string, aValue: string)
    requires path in fs && fs[path] == DefineStatement(dName, dValue) + "\n" + AssignStatement(aName, aValue)
    requires WellFormed(Assignment(dName, dValue)) && '$' !in dName && '$' !in dValue
    requires WellFormed(Assignment(aName, aValue)) && AllIn(WordClass, aName)
    ensures ParseFiles(fs, [path]) == map[Downcase(dName) := dValue][Downcase(aName) := aValue]
  {
    DefineThenAssignEntries(dName, dValue, aName, aValue);
    TwoEntryFile(fs, path, Assignment(dName, dValue), Assignment(aName, aValue));
  }

  lemma DbNameKey()
    ensures Downcase("DB_NAME") == "db_name"
  {
    var r := Downcase("DB_NAME");
    assert r[0] == 'd' && r[1] == 'b' && r[2] == '_' && r[3] == 'n';
    assert r[4] == 'a' && r[5] == 'm' && r[6] == 'e';
  }

  /** The parser's own example: `define('DB_NAME', 'wordpress');` stores
      `wordpress` under `db_name`. */
  lemma DefineExample(fs: map<string, string>, path: string)
    requires path in fs && fs[path] == DefineStatement("DB_NAME", "wordpress")
    ensures ParseFiles(fs, [path]) == map["db_name" := "wordpress"]
  {
    DbNameKey();
    DbNameWellFormed();
    DefineFile(fs, path, "DB_NAME", "wordpress");
  }

  lemma DbNameWellFormed()
    ensures WellFormed(Assignment("DB_NAME", "wordpress"))
    ensures '$' !in "DB_NAME" && '$' !in "wordpress"
  {
  }

  lemma TablePrefixKey()
    ensures Downcase("table_prefix") == "table_prefix"
    ensures AllIn(WordClass, "table_prefix")
  {
    var s := "table_prefix";
    assert NoUpper(s) && AllIn(WordClass, s) by {
      forall k | 0 <= k < |s| ensures !('A' <= s[k] <= 'Z') && In(WordClass, s[k]) {
        assert 'a' <= s[k] <= 'z' || s[k] == '_';
      }
    }
    DowncaseLower(s);
  }

  /** The parser's own example: `$table_prefix = "wp_";` stores `wp_`
      under `table_prefix`. */
  lemma AssignExample(fs: map<string, string>, path: string)
    requires path in fs && fs[path] == AssignStatement("table_prefix", "wp_")
    ensures ParseFiles(fs, [path]) == map["table_prefix" := "wp_"]
  {
    TablePrefixKey();
    TablePrefixWellFormed();
    AssignFile(fs, path, "table_prefix", "wp_");
  }

  lemma TablePrefixWellFormed()
    ensures WellFormed(Assignment("table_prefix", "wp_"))
  {
  }
}
