/**
 * Oxygen_Util: the URL slug, the `memory_limit` parser and the path
 * normaliser (its `hashEquals` is the one in module HashEquals).
 */
module Util {

  import opened Wrappers
  import OxygenException

  // ---------------------------------------------------------------------
  // getUrlSlug
  // ---------------------------------------------------------------------

  /** `rtrim($path, '/')`: the path without its run of trailing slashes. */
  function TrimTrailingSlashes(s: string): (r: string)
    ensures |r| <= |s| && r == s[..|r|]
    ensures forall i :: |r| <= i < |s| ==> s[i] == '/'
    ensures r == "" || r[|r| - 1] != '/'
  {
    if |s| == 0 || s[|s| - 1] != '/' then s
    else TrimTrailingSlashes(s[..|s| - 1])
  }

  /** The trimmed path is the only cut of the path that meets the three ensures above. */
  lemma {:induction false} TrimTrailingSlashesUnique(s: string, r: string)
    requires |r| <= |s| && r == s[..|r|]
    requires forall i :: |r| <= i < |s| ==> s[i] == '/'
    requires r == "" || r[|r| - 1] != '/'
    ensures r == TrimTrailingSlashes(s)
  {
    if |s| > 0 && s[|s| - 1] == '/' {
      assert |r| < |s|;
      TrimTrailingSlashesUnique(s[..|s| - 1], r);
    }
  }

  /**
   * The three parts of a URL the slug is made of, as `parse_url` returns
   * them: the host ("" when absent, which `%s` prints for null), the port
   * and the path when present.
   */
  datatype UrlParts = UrlParts(host: string, port: Option<int>, path: Option<string>)

  /** `getUrlSlug`: host, then ":port" when a port is present, then the path without trailing slashes. */
  function UrlSlug(u: UrlParts): (r: string)
  {
    u.host
    + (if u.port.Some? then ":" + OxygenException.Decimal(u.port.value) else "")
    + (if u.path.Some? then TrimTrailingSlashes(u.path.value) else "")
  }

  /**
   * Two URLs whose host, port and path agree have one slug, whatever their
   * scheme, and slashes added to the end of the path change nothing.
   */
  lemma SlugIgnoresTrailingSlashes(host: string, port: Option<int>, path: string, k: nat)
    ensures UrlSlug(UrlParts(host, port, Some(path + Slashes(k))))
      == UrlSlug(UrlParts(host, port, Some(path)))
  {
    SlashesTrimmed(path, k);
  }

  function Slashes(k: nat): (r: string)
    ensures |r| == k && forall i :: 0 <= i < k ==> r[i] == '/'
  {
    if k == 0 then "" else Slashes(k - 1) + "/"
  }

  lemma {:induction false} SlashesTrimmed(path: string, k: nat)
    ensures TrimTrailingSlashes(path + Slashes(k)) == TrimTrailingSlashes(path)
  {
    if k > 0 {
      assert (path + Slashes(k))[..|path + Slashes(k)| - 1] == path + Slashes(k - 1);
      SlashesTrimmed(path, k - 1);
    } else {
      assert path + Slashes(0) == path;
    }
  }

  /** The slug never ends in '/' after a path, and the path part is the trimmed path. */
  lemma SlugOfPath(host: string, port: Option<int>, path: string)
    ensures var r := UrlSlug(UrlParts(host, port, Some(path)));
      var t := TrimTrailingSlashes(path);
      r[|r| - |t|..] == t && (t != "" ==> r[|r| - 1] != '/')
  {
  }

  /** The host is copied as it is: a "www." prefix stays and makes a different slug. */
  lemma WwwKept()
    ensures UrlSlug(UrlParts("www.example.com", None, None)) == "www.example.com"
    ensures UrlSlug(UrlParts("www.example.com", None, None))
      != UrlSlug(UrlParts("example.com", None, None))
  {
  }

  // ---------------------------------------------------------------------
  // convertToBytes
  // ---------------------------------------------------------------------

  /** `strtolower` on ASCII letters. */
  function Lower(c: char): (r: char)
    ensures 'A' <= c <= 'Z' ==> r as int == c as int + 32
    ensures !('A' <= c <= 'Z') ==> r == c
  {
    if 'A' <= c <= 'Z' then (c as int + 32) as char else c
  }

  function LowerString(s: string): (r: string)
    ensures |r| == |s| && forall i :: 0 <= i < |s| ==> r[i] == Lower(s[i])
  {
    seq(|s|, i requires 0 <= i < |s| => Lower(s[i]))
  }

  /** `ltrim($s, '+')`. */
  function TrimLeadingPluses(s: string): (r: string)
    ensures |r| <= |s| && r == s[|s| - |r|..]
    ensures r == "" || r[0] != '+'
  {
    if |s| > 0 && s[0] == '+' then TrimLeadingPluses(s[1..]) else s
  }

  /** The value of a digit in the given base, for 0-9 and a-f. */
  function DigitValue(c: char, base: nat): (r: Option<nat>)
    ensures r.Some? ==> r.value < base
  {
    if '0' <= c <= '9' && (c as int - '0' as int) < base then Some(c as int - '0' as int)
    else if 'a' <= c <= 'f' && (c as int - 'a' as int + 10) < base then Some(c as int - 'a' as int + 10)
    else None
  }

  /** The value of the longest run of digits at the front of s, read onto acc. */
  function Accumulate(s: string, base: nat, acc: nat): (r: nat)
  {
    if |s| == 0 then acc
    else match DigitValue(s[0], base)
      case None => acc
      case Some(d) => Accumulate(s[1..], base, acc * base + d)
  }

  /** The white space `intval` (and `strtol`) skip before a number. */
  predicate Space(c: char)
  {
    c == ' ' || c == '\t' || c == '\n' || c == '\r' || c as int == 11 || c as int == 12
  }

  /** The string after its leading white space. */
  function SkipSpace(s: string): (r: string)
    ensures |r| <= |s| && r == s[|s| - |r|..]
    ensures forall i :: 0 <= i < |s| - |r| ==> Space(s[i])
    ensures r == "" || !Space(r[0])
  {
    if |s| > 0 && Space(s[0]) then SkipSpace(s[1..]) else s
  }

  /** A string that does not start with white space is read from its first character. */
  lemma NoSpaceFront(s: string)
    requires s == "" || !Space(s[0])
    ensures SkipSpace(s) == s
  {
  }

  /**
   * `intval($s, $base)` on a lower-cased string: leading white space, an
   * optional sign, then the leading digits of the base (for base 16 after
   * an optional "0x"); no digits give 0.
   */
  function IntVal(s: string, base: nat): (r: int)
  {
    var t := SkipSpace(s);
    if |t| > 0 && t[0] == '-' then -(Unsigned(t[1..], base) as int)
    else if |t| > 0 && t[0] == '+' then Unsigned(t[1..], base)
    else Unsigned(t, base)
  }

  function Unsigned(s: string, base: nat): (r: nat)
  {
    if base == 16 && |s| >= 2 && s[..2] == "0x" then Accumulate(s[2..], base, 0)
    else Accumulate(s, base, 0)
  }

  /** The base the number is read in: 16 after "0x", 8 after a leading "0", 10 otherwise. */
  function NumberBase(max: string): (b: nat)
    ensures b == 16 <==> |max| >= 2 && max[..2] == "0x"
    ensures b == 8 <==> |max| >= 1 && max[0] == '0' && !(|max| >= 2 && max[..2] == "0x")
  {
    if |max| >= 2 && max[..2] == "0x" then 16
    else if |max| >= 1 && max[0] == '0' then 8
    else 10
  }

  /** The power of 1024 a final unit letter stands for: k 1, m 2, g 3, t 4. */
  function UnitPower(last: char): (p: nat)
    ensures p <= 4
  {
    match last
    case 't' => 4
    case 'g' => 3
    case 'm' => 2
    case 'k' => 1
    case _ => 0
  }

  function Pow1024(p: nat): (r: nat)
    ensures r >= 1
  {
    if p == 0 then 1 else 1024 * Pow1024(p - 1)
  }

  function LastChar(s: string): (c: char)
  {
    if |s| == 0 then ' ' else s[|s| - 1]
  }

  /** The number of bytes a `memory_limit` setting stands for, -1 meaning unlimited. */
  function MemoryLimitBytes(memoryLimit: string): (r: int)
  {
    if memoryLimit == "-1" then -1 else Scaled(LowerString(memoryLimit))
  }

  /** A lower-cased setting other than "-1": its number times the power of 1024 of its last letter. */
  function Scaled(lower: string): int
  {
    var max := TrimLeadingPluses(lower);
    IntVal(max, NumberBase(max)) * Pow1024(UnitPower(LastChar(lower)))
  }

  /**
   * `convertToBytes`: "-1" is unlimited; otherwise the number after any
   * leading '+', in the base its prefix selects, times 1024 once for each
   * case of the switch the final letter falls through (t, g, m, k).
   */
  method ConvertToBytes(memoryLimit: string) returns (max: int)
    ensures max == MemoryLimitBytes(memoryLimit)
  {
    if memoryLimit == "-1" {
      return -1;
    }
    var lower := LowerString(memoryLimit);
    var digits := TrimLeadingPluses(lower);
    max := IntVal(digits, NumberBase(digits));
    ghost var value := max;
    var last := LastChar(lower);
    // the switch without breaks: each case runs the ones below it too
    if last == 't' {
      max := max * 1024;
    }
    if last == 't' || last == 'g' {
      max := max * 1024;
    }
    if last == 't' || last == 'g' || last == 'm' {
      max := max * 1024;
    }
    if last == 't' || last == 'g' || last == 'm' || last == 'k' {
      max := max * 1024;
    }
    FallThrough(value, last);
  }

  /** Falling through the cases from the final letter down multiplies by its power of 1024. */
  lemma FallThrough(value: int, last: char)
    ensures value * Pow1024(UnitPower(last))
      == (if last == 't' || last == 'g' || last == 'm' || last == 'k' then 1024 else 1)
         * ((if last == 't' || last == 'g' || last == 'm' then 1024 else 1)
         * ((if last == 't' || last == 'g' then 1024 else 1)
         * ((if last == 't' then 1024 else 1) * value)))
  {
    assert Pow1024(1) == 1024;
    assert Pow1024(2) == 1024 * 1024;
    assert Pow1024(3) == 1024 * 1024 * 1024;
    assert Pow1024(4) == 1024 * 1024 * 1024 * 1024;
  }

  /** "-1" is unlimited. */
  lemma UnlimitedExample()
    ensures MemoryLimitBytes("-1") == -1
  {
  }

  /** A setting other than "-1" is the number read from its lower-cased digits times its unit. */
  lemma SettingValue(s: string, n: int, p: nat)
    requires s != "-1"
    requires IntVal(TrimLeadingPluses(LowerString(s)), NumberBase(TrimLeadingPluses(LowerString(s)))) == n
    requires UnitPower(LastChar(LowerString(s))) == p
    ensures MemoryLimitBytes(s) == n * Pow1024(p)
  {
  }

  /** "128M" is 128 MiB. */
  lemma MegabyteExample()
    ensures MemoryLimitBytes("128M") == 134217728
  {
    MegabyteDigits();
    assert Pow1024(2) == 1048576;
    SettingValue("128M", 128, 2);
  }

  lemma MegabyteDigits()
    ensures LowerString("128M") == "128m" && TrimLeadingPluses("128m") == "128m"
    ensures IntVal("128m", NumberBase("128m")) == 128 && UnitPower(LastChar("128m")) == 2
  {
    var s := "128m";
    assert forall i :: 0 <= i < 4 ==> LowerString("128M")[i] == s[i];
    assert s[0] == '1' && s[3] == 'm';
    assert NumberBase(s) == 10;
    NoSpaceFront(s);
    DecimalDigits128();
  }

  lemma DecimalDigits128()
    ensures Accumulate("128m", 10, 0) == 128
  {
    var s := "128m";
    AccumulateStep(s, 10, 0, 1);
    AccumulateStep(s[1..], 10, 1, 2);
    AccumulateStep(s[1..][1..], 10, 12, 8);
    AccumulateStop(s[1..][1..][1..], 10, 128);
  }

  lemma AccumulateStep(s: string, base: nat, acc: nat, d: nat)
    requires |s| > 0 && DigitValue(s[0], base) == Some(d)
    ensures Accumulate(s, base, acc) == Accumulate(s[1..], base, acc * base + d)
  {
  }

  lemma AccumulateStop(s: string, base: nat, acc: nat)
    requires |s| == 0 || DigitValue(s[0], base).None?
    ensures Accumulate(s, base, acc) == acc
  {
  }

  /** After "0x" the number is hexadecimal. */
  lemma HexExample()
    ensures MemoryLimitBytes("0x10k") == 16384
  {
    HexDigits();
    assert Pow1024(1) == 1024;
    SettingValue("0x10k", 16, 1);
  }

  lemma HexDigits()
    ensures LowerString("0x10k") == "0x10k" && TrimLeadingPluses("0x10k") == "0x10k"
    ensures IntVal("0x10k", NumberBase("0x10k")) == 16 && UnitPower(LastChar("0x10k")) == 1
  {
    var s := "0x10k";
    assert LowerString(s) == s && TrimLeadingPluses(s) == s by {
      LowerCaseKept(s);
      assert s[0] == '0';
    }
    assert UnitPower(LastChar(s)) == 1 by {
      assert s[4] == 'k';
    }
    HexNumber();
  }

  lemma HexNumber()
    ensures IntVal("0x10k", NumberBase("0x10k")) == 16
  {
    var s := "0x10k";
    assert s[0] == '0' && s[..2] == "0x";
    assert NumberBase(s) == 16;
    NoSpaceFront(s);
    HexDigits10();
  }

  lemma HexDigits10()
    ensures Accumulate("0x10k"[2..], 16, 0) == 16
  {
    var t := "0x10k"[2..];
    assert t == "10k";
    AccumulateStep(t, 16, 0, 1);
    AccumulateStep(t[1..], 16, 1, 0);
    AccumulateStop(t[1..][1..], 16, 16);
  }

  /** After a leading "0" the number is octal. */
  lemma OctalExample()
    ensures MemoryLimitBytes("010") == 8
  {
    OctalDigits();
    SettingValue("010", 8, 0);
  }

  lemma OctalDigits()
    ensures LowerString("010") == "010" && TrimLeadingPluses("010") == "010"
    ensures IntVal("010", NumberBase("010")) == 8 && UnitPower(LastChar("010")) == 0
  {
    var s := "010";
    LowerCaseKept(s);
    assert s[0] == '0' && s[2] == '0' && s[..2][1] == '1';
    assert NumberBase(s) == 8;
    NoSpaceFront(s);
    AccumulateStep(s, 8, 0, 0);
    AccumulateStep(s[1..], 8, 0, 1);
    AccumulateStep(s[1..][1..], 8, 1, 0);
    AccumulateStop(s[1..][1..][1..], 8, 8);
  }

  /** White space in front of a number is skipped: intval(" " . $s) == intval($s). */
  lemma SpaceIgnored(s: string, base: nat)
    ensures IntVal(" " + s, base) == IntVal(s, base)
  {
    assert (" " + s)[1..] == s;
  }

  /** Leading '+' signs are ignored: the setting means what it means without them. */
  lemma {:induction false} PlusIgnored(s: string)
    requires s != "-1"
    ensures MemoryLimitBytes("+" + s) == MemoryLimitBytes(s)
  {
    var ls := LowerString(s);
    var lp := LowerString("+" + s);
    assert ("+" + s)[0] == '+';
    assert lp == "+" + ls by {
      assert forall i :: 0 <= i < |lp| ==> lp[i] == ("+" + ls)[i];
    }
    assert TrimLeadingPluses(lp) == TrimLeadingPluses(ls) by {
      assert lp[1..] == ls;
    }
    assert LastChar(lp) == LastChar(ls) || (s == "" && LastChar(lp) == '+');
    SameScale(lp, ls);
  }

  lemma {:induction false} SameScale(a: string, b: string)
    requires TrimLeadingPluses(a) == TrimLeadingPluses(b)
    requires UnitPower(LastChar(a)) == UnitPower(LastChar(b))
    ensures Scaled(a) == Scaled(b)
  {
    var max := TrimLeadingPluses(a);
    var n := IntVal(max, NumberBase(max));
    assert Scaled(a) == n * Pow1024(UnitPower(LastChar(a)));
    assert Scaled(b) == n * Pow1024(UnitPower(LastChar(b)));
  }

  /** Reading a run of digits, then whatever follows, continues from the run's value. */
  lemma {:induction false} AccumulateConcat(d: string, rest: string, acc: nat)
    requires forall i :: 0 <= i < |d| ==> '0' <= d[i] <= '9'
    ensures Accumulate(d + rest, 10, acc) == Accumulate(rest, 10, Accumulate(d, 10, acc))
  {
    if |d| > 0 {
      assert (d + rest)[0] == d[0];
      assert (d + rest)[1..] == d[1..] + rest;
      AccumulateConcat(d[1..], rest, acc * 10 + (d[0] as int - '0' as int));
    } else {
      assert d + rest == rest;
    }
  }

  /** The digits of n read back as n. */
  lemma {:induction false} AccumulateDigits(n: nat)
    ensures Accumulate(OxygenException.Decimal(n), 10, 0) == n
  {
    if n >= 10 {
      var last := [('0' as int + n % 10) as char];
      assert OxygenException.Decimal(n) == OxygenException.Decimal(n / 10) + last;
      AccumulateConcat(OxygenException.Decimal(n / 10), last, 0);
      AccumulateDigits(n / 10);
      assert Accumulate(last[1..], 10, n / 10 * 10 + n % 10) == n;
    }
  }

  /** `intval` reads back what `%d` prints: intval(sprintf('%d', n)) == n. */
  lemma IntValDecimal(n: int)
    ensures IntVal(OxygenException.Decimal(n), 10) == n
  {
    NoSpaceFront(OxygenException.Decimal(n));
    if n < 0 {
      assert OxygenException.Decimal(n)[1..] == OxygenException.Decimal(-n);
      AccumulateDigits(-n);
    } else {
      AccumulateDigits(n);
    }
  }

  /** A positive decimal number followed by a unit letter is that many kibi-, mebi-, gibi- or tebibytes. */
  lemma DecimalWithUnit(n: nat, unit: char)
    requires n > 0 && unit in "kmgt"
    ensures MemoryLimitBytes(OxygenException.Decimal(n) + [unit]) == n * Pow1024(UnitPower(unit))
  {
    var s := OxygenException.Decimal(n) + [unit];
    NoLeadingZero(n);
    LowerCaseKept(s);
    assert s[0] == OxygenException.Decimal(n)[0] && s[|s| - 1] == unit;
    PlainSetting(s);
    DecimalValue(n, unit);
  }

  /** A setting already in lower case reads the same after `strtolower`. */
  lemma LowerCaseKept(s: string)
    requires forall i :: 0 <= i < |s| ==> !('A' <= s[i] <= 'Z')
    ensures LowerString(s) == s
  {
  }

  /** A lower-case setting with no leading '+' and not "-1": its number times its unit. */
  lemma PlainSetting(s: string)
    requires LowerString(s) == s && s != "-1" && (s == "" || s[0] != '+')
    ensures MemoryLimitBytes(s) == IntVal(s, NumberBase(s)) * Pow1024(UnitPower(LastChar(s)))
  {
  }

  lemma DecimalValue(n: nat, unit: char)
    requires n > 0 && unit in "kmgt"
    ensures IntVal(OxygenException.Decimal(n) + [unit], NumberBase(OxygenException.Decimal(n) + [unit])) == n
  {
    var s := OxygenException.Decimal(n) + [unit];
    NoLeadingZero(n);
    assert s[0] == OxygenException.Decimal(n)[0];
    assert NumberBase(s) == 10;
    NoSpaceFront(s);
    AccumulateConcat(OxygenException.Decimal(n), [unit], 0);
    AccumulateDigits(n);
  }

  lemma {:induction false} NoLeadingZero(n: nat)
    requires n > 0
    ensures OxygenException.Decimal(n)[0] != '0'
  {
    if n >= 10 {
      NoLeadingZero(n / 10);
    }
  }

  // ---------------------------------------------------------------------
  // normalizePath
  // ---------------------------------------------------------------------

  /**
   * `strtr($s, $from, $to)` with string arguments: each character of s
   * found among the first min(|from|, |to|) characters of from becomes the
   * character of to at the same place (the last such place when it occurs
   * more than once); the others stay.
   */
  function Translate(s: string, from: string, to: string): (r: string)
    ensures |r| == |s|
    ensures forall i :: 0 <= i < |s| ==> r[i] == TranslateChar(s[i], from, to, Min(|from|, |to|))
  {
    if |s| == 0 then "" else [TranslateChar(s[0], from, to, Min(|from|, |to|))] + Translate(s[1..], from, to)
  }

  function Min(a: nat, b: nat): nat
  {
    if a <= b then a else b
  }

  function TranslateChar(c: char, from: string, to: string, m: nat): (r: char)
    requires m <= |from| && m <= |to|
    ensures r == c || exists j :: 0 <= j < m && from[j] == c && r == to[j]
    ensures (forall j :: 0 <= j < m ==> from[j] != c) ==> r == c
  {
    if m == 0 then c
    else if from[m - 1] == c then to[m - 1]
    else TranslateChar(c, from, to, m - 1)
  }

  /**
   * `normalizePath` as written: on a system whose separator is not '/',
   * `strtr('\\', '/', $path)` translates the one-character string "\"
   * instead of the path.
   */
  function NormalizePathAsWritten(path: string, separator: string): (r: string)
  {
    if separator == "/" then path else Translate("\\", "/", path)
  }

  /** As written, every path becomes "\" where the separator is not '/'. */
  lemma NormalizePathAsWrittenIsConstant(path: string, separator: string)
    requires separator != "/"
    ensures NormalizePathAsWritten(path, separator) == "\\"
  {
    var r := Translate("\\", "/", path);
    assert r[0] == TranslateChar('\\', "/", path, Min(1, |path|));
  }

  /** `normalizePath` as its documentation describes it: back-slashes become forward slashes. */
  function NormalizePath(path: string, separator: string): (r: string)
    ensures |r| == |path|
    ensures separator == "/" ==> r == path
    ensures separator != "/" ==> forall i :: 0 <= i < |r| ==> r[i] != '\\'
    ensures separator != "/" ==> forall i :: 0 <= i < |r| ==> (r[i] == path[i] || (path[i] == '\\' && r[i] == '/'))
  {
    if separator == "/" then path else Translate(path, "\\", "/")
  }

  /** Normalising twice is normalising once, and a path without back-slashes is left alone. */
  lemma NormalizePathIdempotent(path: string, separator: string)
    ensures NormalizePath(NormalizePath(path, separator), separator) == NormalizePath(path, separator)
    ensures (forall i :: 0 <= i < |path| ==> path[i] != '\\') ==> NormalizePath(path, separator) == path
  {
  }
}
