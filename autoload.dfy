/**
 * `oxygen_autoload`: the class-name to file-path rule of the module's
 * autoloader. A class `Oxygen_A_B_C` lives in `<src>/A/B/C.php`; any other
 * class is not the autoloader's business. `require` itself (reading and
 * running the file) is not part of this model.
 */
module Autoload {

  import opened Wrappers

  /** The prefix every class of the module carries. */
  const Prefix := "Oxygen_"

  /** `str_replace($from, $to, $s)` for one character. */
  function ReplaceChar(s: string, from: char, to: char): (r: string)
    ensures |r| == |s|
    ensures forall i | 0 <= i < |s| :: r[i] == if s[i] == from then to else s[i]
  {
    if |s| == 0 then "" else ReplaceChar(s[..|s| - 1], from, to) + [if s[|s| - 1] == from then to else s[|s| - 1]]
  }

  /** Replacing back undoes a replacement, when the target character was not in the string. */
  lemma ReplaceBack(s: string, from: char, to: char)
    requires forall i | 0 <= i < |s| :: s[i] != to
    ensures ReplaceChar(ReplaceChar(s, from, to), to, from) == s
  {
    var r := ReplaceChar(ReplaceChar(s, from, to), to, from);
    assert forall i | 0 <= i < |s| :: r[i] == s[i];
  }

  predicate HasPrefix(s: string, prefix: string)
  {
    |prefix| <= |s| && s[..|prefix|] == prefix
  }

  /**
   * The file `oxygen_autoload($class)` requires: for a class of the module,
   * `src` + "/" + the name after the prefix with every '_' made a '/' +
   * ".php"; nothing for any other class.
   */
  function PathOf(src: string, className: string): (path: Option<string>)
    ensures path.Some? <==> HasPrefix(className, Prefix)
    ensures path.Some? ==>
              |path.value| == |src| + |className| - |Prefix| + 5
              && path.value[..|src| + 1] == src + "/"
              && path.value[|path.value| - 4..] == ".php"
              && (forall i | |src| + 1 <= i < |path.value| - 4 :: path.value[i] != '_')
  {
    if HasPrefix(className, Prefix) then
      var path := src + "/" + ReplaceChar(className[|Prefix|..], '_', '/') + ".php";
      assert path[..|src| + 1] == src + "/";
      assert path[|path| - 4..] == ".php";
      Some(path)
    else None
  }

  /** A path that ends in ".php". */
  predicate PhpFile(relative: string)
  {
    |relative| >= 4 && relative[|relative| - 4..] == ".php"
  }

  /**
   * The inverse rule: the class a file under `src` defines, the path
   * relative to `src` with '/' made '_', without ".php", after the prefix.
   */
  function ClassOf(relative: string): (className: string)
    requires PhpFile(relative)
  {
    Prefix + ReplaceChar(relative[..|relative| - 4], '/', '_')
  }

  /** class -> path -> class: every class of the module comes back from its path, since a class name has no '/'. */
  lemma ClassRoundTrip(src: string, className: string)
    requires HasPrefix(className, Prefix)
    requires forall i | 0 <= i < |className| :: className[i] != '/'
    ensures PathOf(src, className).Some?
    ensures var path := PathOf(src, className).value;
            ClassOf(path[|src| + 1..]) == className
  {
    var rest := className[|Prefix|..];
    var path := PathOf(src, className).value;
    var relative := ReplaceChar(rest, '_', '/') + ".php";
    assert path == src + "/" + relative;
    assert path[|src| + 1..] == relative;
    assert relative[..|relative| - 4] == ReplaceChar(rest, '_', '/');
    assert relative[|relative| - 4..] == ".php";
    ReplaceBack(rest, '_', '/');
    assert className == Prefix + rest;
  }

  /** path -> class -> path: a file comes back from its class only when no segment of its path holds a '_'. */
  lemma PathRoundTrip(src: string, relative: string)
    requires PhpFile(relative)
    requires forall i | 0 <= i < |relative| - 4 :: relative[i] != '_'
    ensures PathOf(src, ClassOf(relative)) == Some(src + "/" + relative)
  {
    var className := ClassOf(relative);
    var stem := relative[..|relative| - 4];
    var rest := ReplaceChar(stem, '/', '_');
    assert className == Prefix + rest;
    assert className[..|Prefix|] == Prefix;
    assert className[|Prefix|..] == rest;
    ReplaceBack(stem, '/', '_');
    assert relative == stem + ".php";
    assert src + "/" + stem + ".php" == src + "/" + relative;
  }

  /** `Oxygen_Foo_Bar` and the file `Foo_Bar.php` do not meet: the file's class is looked for in Foo/Bar.php. */
  lemma UnderscoreInFileName(src: string)
    ensures ClassOf("Foo_Bar.php") == "Oxygen_Foo_Bar"
    ensures PathOf(src, "Oxygen_Foo_Bar") == Some(src + "/Foo/Bar.php")
  {
    var stem := "Foo_Bar";
    assert "Foo_Bar.php"[..7] == stem;
    var kept := ReplaceChar(stem, '/', '_');
    assert forall i | 0 <= i < 7 :: kept[i] == stem[i];
    assert kept == stem;
    assert "Oxygen_Foo_Bar"[..7] == Prefix;
    assert "Oxygen_Foo_Bar"[7..] == stem;
    var slashed := ReplaceChar(stem, '_', '/');
    assert forall i | 0 <= i < 7 :: slashed[i] == "Foo/Bar"[i];
    assert slashed == "Foo/Bar";
    assert HasPrefix("Oxygen_Foo_Bar", Prefix);
    assert src + "/" + slashed + ".php" == src + "/Foo/Bar.php";
  }

  /** The autoloader, with the source directory it works out on its first call and keeps. */
  class Autoloader {
    /** The directory the autoloader's file is in. */
    const directory: string
    var srcDirectory: Option<string>

    /** The kept source directory, once there, is the directory's "src". */
    predicate Valid()
      reads this
    {
      srcDirectory.None? || srcDirectory == Some(directory + "/src")
    }

    constructor (directory: string)
      ensures this.directory == directory && srcDirectory == None && Valid()
    {
      this.directory := directory;
      srcDirectory := None;
    }

    /**
     * `oxygen_autoload($class)`: the file to require, if any. The source
     * directory is worked out once, on the first call, and kept.
     */
    method Load(className: string) returns (path: Option<string>)
      requires Valid()
      modifies this
      ensures Valid()
      ensures srcDirectory == Some(directory + "/src")
      ensures old(srcDirectory).Some? ==> srcDirectory == old(srcDirectory)
      ensures path == PathOf(srcDirectory.value, className)
    {
      if srcDirectory.None? {
        srcDirectory := Some(directory + "/src");
      }
      path := PathOf(srcDirectory.value, className);
    }
  }
}
