/**
  The command line of the calibration tool: lower-casing, `parseArgs`,
  `parseAddr` (with `std::stoi` in base 16) and the choice of transport
  from the device path. Arguments are the strings after the program name.
 */
module Cli {
  import opened Wrappers
  import Calibrate

  /** `::tolower` in the "C" locale: only the ASCII capitals change. */
  function LowerChar(c: char): (l: char)
    ensures 'A' <= c <= 'Z' ==> l as int == c as int + 32
    ensures !('A' <= c <= 'Z') ==> l == c
    ensures !('A' <= l <= 'Z')
  {
    if 'A' <= c <= 'Z' then (c as int + 32) as char else c
  }

  /** `toLower`: every character lowered, nothing else changed. */
  function ToLower(s: string): (r: string)
    ensures |r| == |s|
    ensures forall i :: 0 <= i < |s| ==> r[i] == LowerChar(s[i])
  {
    seq(|s|, i requires 0 <= i < |s| => LowerChar(s[i]))
  }

  /** Lowering twice is lowering once. */
  lemma ToLowerIdempotent(s: string)
    ensures ToLower(ToLower(s)) == ToLower(s)
  {
  }

  /** Lowering commutes with slicing, so a slice of the lowered argument is the lowered slice. */
  lemma ToLowerSlice(s: string, i: nat, j: nat)
    requires i <= j <= |s|
    ensures ToLower(s)[i..j] == ToLower(s[i..j])
  {
  }

  /** `rfind(p, 0) == 0`: `s` starts with `p`. */
  predicate StartsWith(s: string, p: string) {
    |p| <= |s| && s[..|p|] == p
  }

  /** `find(c)`: the first position of `c` in `s`, `None` for `npos`. */
  function Find(s: string, c: char): (r: Option<nat>)
    ensures r.None? <==> c !in s
    ensures r.Some? ==> r.value < |s| && s[r.value] == c && c !in s[..r.value]
    decreases |s|
  {
    if |s| == 0 then None
    else if s[0] == c then Some(0)
    else
      var rest := Find(s[1..], c);
      assert s == [s[0]] + s[1..];
      match rest
      case None => None
      case Some(k) =>
        assert s[..k + 1] == [s[0]] + s[1..][..k];
        Some(k + 1)
  }

  /** A character whose first occurrence is at `e` is found at `e`. */
  lemma FindFirst(s: string, c: char, e: nat)
    requires e < |s| && s[e] == c && c !in s[..e]
    ensures Find(s, c) == Some(e)
  {
  }

  /** The short options that take a value, and the long names they stand for. */
  const ShortToLong: map<string, string> := map["d" := "device", "a" := "address"]

  /** `main`'s defaults: the second V4L2 sub-device, and the adapter's I2C address. */
  const Defaults: map<string, string> := map["device" := "/dev/v4l-subdev1", "address" := "0x0d"]

  /** Whether an argument asks for help, compared after lowering. */
  predicate IsHelp(raw: string) {
    ToLower(raw) == "-h" || ToLower(raw) == "--help"
  }

  /**
    `parseArgs` from the argument `args[0]` on, with `acc` the options so
    far. `None` stands for the help text and the exit it ends with.
   */
  function ParseFrom(args: seq<string>, acc: map<string, string>): (r: Option<map<string, string>>)
    ensures r.Some? ==> acc.Keys <= r.value.Keys
    decreases |args|
  {
    if |args| == 0 then Some(acc)
    else
      var raw := args[0];
      var arg := ToLower(raw);
      if arg == "-h" || arg == "--help" then None
      else if arg == "-v" || arg == "--verbose" then ParseFrom(args[1..], acc["verbose" := "true"])
      else if StartsWith(arg, "--") then
        match Find(arg, '=')
        case Some(e) =>
          assert 2 <= e by { assert arg[..2] == "--"; assert arg[e] == '='; }
          ParseFrom(args[1..], acc[arg[2..e] := raw[e + 1..]])
        case None =>
          if |args| > 1 then ParseFrom(args[2..], acc[arg[2..] := args[1]]) else Some(acc)
      else if |arg| == 2 && arg[0] == '-' && arg[1..] in ShortToLong && |args| > 1 then
        ParseFrom(args[2..], acc[ShortToLong[arg[1..]] := args[1]])
      else ParseFrom(args[1..], acc)
  }

  /**
    `parseArgs` over the arguments after the program name, starting from
    `defaults`: every default stays set unless the help text ends the
    program, and that happens only when some argument asks for it.
   */
  function ParseArgs(args: seq<string>, defaults: map<string, string>): (r: Option<map<string, string>>)
    ensures r.Some? ==> defaults.Keys <= r.value.Keys
    ensures r.None? ==> exists i :: 0 <= i < |args| && IsHelp(args[i])
  {
    var r := ParseFrom(args, defaults);
    if r.None? then HelpOnlyWhenAsked(args, defaults); r else r
  }

  /** The tool prints its help only when some argument is `-h` or `--help`, in any case. */
  lemma {:induction false} HelpOnlyWhenAsked(args: seq<string>, acc: map<string, string>)
    requires ParseFrom(args, acc).None?
    ensures exists i :: 0 <= i < |args| && IsHelp(args[i])
    decreases |args|
  {
    var raw := args[0];
    var arg := ToLower(raw);
    if IsHelp(raw) {
    } else if arg == "-v" || arg == "--verbose" {
      HelpInTail(args, 1, acc["verbose" := "true"]);
    } else if StartsWith(arg, "--") {
      match Find(arg, '=')
      case Some(e) =>
        HelpInTail(args, 1, acc[arg[2..e] := raw[e + 1..]]);
      case None =>
        HelpInTail(args, 2, acc[arg[2..] := args[1]]);
    } else if |arg| == 2 && arg[0] == '-' && arg[1..] in ShortToLong && |args| > 1 {
      HelpInTail(args, 2, acc[ShortToLong[arg[1..]] := args[1]]);
    } else {
      HelpInTail(args, 1, acc);
    }
  }

  /** The inductive step of `HelpOnlyWhenAsked`: a help argument in a suffix is one in the whole. */
  lemma {:induction false} HelpInTail(args: seq<string>, k: nat, acc: map<string, string>)
    requires 0 < k <= |args| && ParseFrom(args[k..], acc).None?
    ensures exists i :: 0 <= i < |args| && IsHelp(args[i])
    decreases |args|, 0
  {
    HelpOnlyWhenAsked(args[k..], acc);
    var i :| 0 <= i < |args[k..]| && IsHelp(args[k..][i]);
    assert args[k..][i] == args[k + i];
  }

  /** A help argument in first place wins over whatever follows. */
  lemma HelpFirst(raw: string, rest: seq<string>, acc: map<string, string>)
    requires IsHelp(raw)
    ensures ParseFrom([raw] + rest, acc).None?
  {
  }

  /** What parsing sees of a `--key=value` argument once lowered: a long option whose first `=` is at `e`. */
  lemma LoweredKeyEqualsValue(raw: string, e: nat)
    requires 2 <= e < |raw| && raw[..2] == "--" && raw[e] == '=' && '=' !in raw[..e]
    ensures var arg := ToLower(raw);
      && StartsWith(arg, "--") && Find(arg, '=') == Some(e)
      && arg != "-h" && arg != "--help" && arg != "-v" && arg != "--verbose"
      && arg[2..e] == ToLower(raw[2..e])
  {
    var arg := ToLower(raw);
    ToLowerSlice(raw, 0, 2);
    LoweredFind(raw, e);
    NotAFlag(arg, e);
    ToLowerSlice(raw, 2, e);
  }

  /** Lowering moves no `=`: the first one of the lowered argument is the first one of the argument. */
  lemma LoweredFind(raw: string, e: nat)
    requires e < |raw| && raw[e] == '=' && '=' !in raw[..e]
    ensures Find(ToLower(raw), '=') == Some(e)
  {
    var arg := ToLower(raw);
    assert arg[e] == '=';
    assert '=' !in arg[..e] by {
      forall j | 0 <= j < e
        ensures arg[j] != '='
      {
        assert raw[..e][j] == raw[j];
      }
    }
    FindFirst(arg, '=', e);
  }

  /** An argument with `=` past its second character is none of the flags. */
  lemma NotAFlag(arg: string, e: nat)
    requires 2 <= e < |arg| && arg[e] == '='
    ensures arg != "-h" && arg != "--help" && arg != "-v" && arg != "--verbose"
  {
  }

  /** `--key=value`: the key is lowered, the value keeps its case, and parsing goes on after it. */
  lemma KeyEqualsValue(raw: string, e: nat, rest: seq<string>, acc: map<string, string>)
    requires 2 <= e < |raw| && raw[..2] == "--" && raw[e] == '=' && '=' !in raw[..e]
    ensures ParseFrom([raw] + rest, acc) == ParseFrom(rest, acc[ToLower(raw[2..e]) := raw[e + 1..]])
  {
    LoweredKeyEqualsValue(raw, e);
    var args := [raw] + rest;
    assert args[0] == raw;
    assert args[1..] == rest;
  }

  /** What parsing sees of a long option without `=`, once lowered: none of the flags, and no `=` to split at. */
  lemma LoweredLongOption(raw: string)
    requires 2 <= |raw| && raw[..2] == "--" && '=' !in raw && !IsHelp(raw)
    requires ToLower(raw) != "--verbose"
    ensures var arg := ToLower(raw);
      && StartsWith(arg, "--") && Find(arg, '=').None?
      && arg != "-h" && arg != "--help" && arg != "-v" && arg != "--verbose"
      && arg[2..] == ToLower(raw[2..])
  {
    var arg := ToLower(raw);
    assert arg[..2] == "--";
    assert '=' !in arg by {
      forall j | 0 <= j < |arg|
        ensures arg[j] != '='
      {
        assert raw[j] in raw;
      }
    }
    assert arg != "-h" && arg != "-v" && arg != "--help" by {
      assert arg[1] == '-';
    }
    ToLowerSlice(raw, 2, |raw|);
    assert raw[2..|raw|] == raw[2..] && arg[2..|raw|] == arg[2..];
  }

  /** `--key value`: without `=`, the next argument is the value and is consumed. */
  lemma KeySpaceValue(raw: string, value: string, rest: seq<string>, acc: map<string, string>)
    requires 2 <= |raw| && raw[..2] == "--" && '=' !in raw && !IsHelp(raw)
    requires ToLower(raw) != "--verbose"
    ensures ParseFrom([raw, value] + rest, acc) == ParseFrom(rest, acc[ToLower(raw[2..]) := value])
  {
    LoweredLongOption(raw);
    var args := [raw, value] + rest;
    assert args[0] == raw && args[1] == value;
    assert args[2..] == rest;
  }

  /** A long option without `=` as the last argument has no value to take, and is ignored. */
  lemma DanglingLongOption(raw: string, acc: map<string, string>)
    requires 2 <= |raw| && raw[..2] == "--" && '=' !in raw && !IsHelp(raw)
    requires ToLower(raw) != "--verbose"
    ensures ParseFrom([raw], acc) == Some(acc)
  {
    LoweredLongOption(raw);
  }

  /** `-d` or `-a` as the last argument has no value to take, and is ignored. */
  lemma DanglingShortOption(raw: string, acc: map<string, string>)
    requires |raw| == 2 && raw[0] == '-' && ToLower(raw[1..]) in ShortToLong
    ensures ParseFrom([raw], acc) == Some(acc)
  {
    var arg := ToLower(raw);
    ToLowerSlice(raw, 1, 2);
    assert raw[1..2] == raw[1..] && arg[1..2] == arg[1..];
    assert arg[1..] == "d" || arg[1..] == "a";
    assert !StartsWith(arg, "--");
    assert [raw][1..] == [];
  }

  /** `-d value` and `-a value`: the short option names the long key and consumes the next argument. */
  lemma ShortOption(raw: string, value: string, rest: seq<string>, acc: map<string, string>)
    requires |raw| == 2 && raw[0] == '-' && ToLower(raw[1..]) in ShortToLong
    ensures ParseFrom([raw, value] + rest, acc) == ParseFrom(rest, acc[ShortToLong[ToLower(raw[1..])] := value])
  {
    var arg := ToLower(raw);
    ToLowerSlice(raw, 1, 2);
    assert raw[1..2] == raw[1..];
    assert arg[1..2] == arg[1..];
    assert arg[1..] == ToLower(raw[1..]);
    assert arg[1..] in ShortToLong;
    assert arg[1..] == "d" || arg[1..] == "a";
    assert !StartsWith(arg, "--");
    var args := [raw, value] + rest;
    assert args[0] == raw && args[1] == value;
    assert args[2..] == rest;
  }

  /**
    Whether `raw`, wherever it stands, cannot set the option `k`: it is not
    `--k` or `--k=…` (nor any longer key starting with `k`), not `-v` when
    `k` is "verbose", and not a short option standing for `k`.
   */
  predicate LeavesAlone(raw: string, k: string) {
    var arg := ToLower(raw);
    && !StartsWith(arg, "--" + k)
    && !(k == "verbose" && arg == "-v")
    && !(|arg| == 2 && arg[0] == '-' && arg[1..] in ShortToLong && ShortToLong[arg[1..]] == k)
  }

  /** An option no argument can set keeps the value it had before parsing. */
  lemma {:induction false} ParseLeavesAlone(args: seq<string>, acc: map<string, string>, k: string)
    requires k in acc
    requires forall i :: 0 <= i < |args| ==> LeavesAlone(args[i], k)
    requires ParseFrom(args, acc).Some?
    ensures k in ParseFrom(args, acc).value && ParseFrom(args, acc).value[k] == acc[k]
    decreases |args|, 1
  {
    if |args| > 0 {
      var raw := args[0];
      var arg := ToLower(raw);
      assert LeavesAlone(raw, k);
      AloneInSuffix(args, k, 1);
      if arg == "-v" || arg == "--verbose" {
        assert k != "verbose";
        ParseLeavesAlone(args[1..], acc["verbose" := "true"], k);
      } else if StartsWith(arg, "--") {
        LongLeavesAlone(args, acc, k);
      } else if |arg| == 2 && arg[0] == '-' && arg[1..] in ShortToLong && |args| > 1 {
        AloneInSuffix(args, k, 2);
        ParseLeavesAlone(args[2..], acc[ShortToLong[arg[1..]] := args[1]], k);
      } else {
        ParseLeavesAlone(args[1..], acc, k);
      }
    }
  }

  /** The long-option step of `ParseLeavesAlone`: the key it sets, with or without `=`, is not `k`. */
  lemma {:induction false} LongLeavesAlone(args: seq<string>, acc: map<string, string>, k: string)
    requires k in acc
    requires forall i :: 0 <= i < |args| ==> LeavesAlone(args[i], k)
    requires |args| > 0 && StartsWith(ToLower(args[0]), "--") && !IsHelp(args[0])
    requires ToLower(args[0]) != "--verbose"
    requires ParseFrom(args, acc).Some?
    ensures k in ParseFrom(args, acc).value && ParseFrom(args, acc).value[k] == acc[k]
    decreases |args|, 0
  {
    var raw := args[0];
    var arg := ToLower(raw);
    assert LeavesAlone(raw, k);
    assert arg != "-v" by { assert arg[1] == '-'; }
    match Find(arg, '=')
    case Some(e) =>
      KeyBeforeEquals(arg, e, k);
      AloneInSuffix(args, k, 1);
      ParseLeavesAlone(args[1..], acc[arg[2..e] := raw[e + 1..]], k);
    case None =>
      if |args| > 1 {
        KeyBeforeEquals(arg, |arg|, k);
        assert arg[2..|arg|] == arg[2..];
        AloneInSuffix(args, k, 2);
        ParseLeavesAlone(args[2..], acc[arg[2..] := args[1]], k);
      }
  }

  /** Arguments that leave `k` alone still do from any position on. */
  lemma AloneInSuffix(args: seq<string>, k: string, n: nat)
    requires n <= |args|
    requires forall i :: 0 <= i < |args| ==> LeavesAlone(args[i], k)
    ensures forall i :: 0 <= i < |args[n..]| ==> LeavesAlone(args[n..][i], k)
  {
    forall i | 0 <= i < |args[n..]|
      ensures LeavesAlone(args[n..][i], k)
    {
      assert args[n..][i] == args[n + i];
    }
  }

  /** The key of a long option ending at `e` is `k` only if the option starts with `--k`. */
  lemma KeyBeforeEquals(arg: string, e: nat, k: string)
    requires 2 <= e <= |arg| && StartsWith(arg, "--") && !StartsWith(arg, "--" + k)
    ensures arg[2..e] != k
  {
  }

  /**
    The device and the address are always set after parsing, and an option
    no argument sets keeps its default: `/dev/v4l-subdev1` and `0x0d`.
   */
  lemma DefaultsSurvive(args: seq<string>)
    requires ParseArgs(args, Defaults).Some?
    ensures "device" in ParseArgs(args, Defaults).value && "address" in ParseArgs(args, Defaults).value
    ensures (forall i :: 0 <= i < |args| ==> LeavesAlone(args[i], "device")) ==>
      ParseArgs(args, Defaults).value["device"] == "/dev/v4l-subdev1"
    ensures (forall i :: 0 <= i < |args| ==> LeavesAlone(args[i], "address")) ==>
      ParseArgs(args, Defaults).value["address"] == "0x0d"
  {
    if forall i :: 0 <= i < |args| ==> LeavesAlone(args[i], "device") {
      ParseLeavesAlone(args, Defaults, "device");
    }
    if forall i :: 0 <= i < |args| ==> LeavesAlone(args[i], "address") {
      ParseLeavesAlone(args, Defaults, "address");
    }
  }

  /** Whether `s` occurs in `t` at position `i`. */
  predicate OccursAt(t: string, s: string, i: nat) {
    i + |s| <= |t| && t[i..i + |s|] == s
  }

  /** Whether `s` occurs in `t`: `find(s) != npos`. */
  predicate Contains(t: string, s: string) {
    exists i: nat | i <= |t| :: OccursAt(t, s, i)
  }

  /**
    A device path naming `i2c` in any case is the raw bus; any other path is
    a V4L2 sub-device. Stated on the path itself: some `i` or `I`, then `2`,
    then `c` or `C`.
   */
  function SelectDevice(path: string): (t: Calibrate.Transport)
    ensures t == Calibrate.I2cBus <==> exists i: nat :: SpellsI2cAt(path, i)
  {
    NamesI2c(path);
    if Contains(ToLower(path), "i2c") then Calibrate.I2cBus else Calibrate.SubDevice
  }

  /** The path has `i`, `2`, `c` in a row at `i`, the letters in either case. */
  predicate SpellsI2cAt(path: string, i: nat) {
    i + 3 <= |path| && LowerChar(path[i]) == 'i' && path[i + 1] == '2' && LowerChar(path[i + 2]) == 'c'
  }

  /** The lowered path contains `i2c` exactly when the path spells it somewhere, the letters in either case. */
  lemma NamesI2c(path: string)
    ensures Contains(ToLower(path), "i2c") <==> exists i: nat :: SpellsI2cAt(path, i)
  {
    var t := ToLower(path);
    if Contains(t, "i2c") {
      var i: nat :| i <= |t| && OccursAt(t, "i2c", i);
      I2cFromOccurrence(path, i);
    }
    if exists i: nat :: SpellsI2cAt(path, i) {
      var i: nat :| SpellsI2cAt(path, i);
      I2cToOccurrence(path, i);
    }
  }

  /** An occurrence of `i2c` in the lowered path spells `i2c` in the path. */
  lemma I2cFromOccurrence(path: string, i: nat)
    requires OccursAt(ToLower(path), "i2c", i)
    ensures SpellsI2cAt(path, i)
  {
    var t := ToLower(path);
    var w := t[i..i + 3];
    assert w == "i2c";
    assert w[0] == t[i] && w[1] == t[i + 1] && w[2] == t[i + 2];
    assert LowerChar(path[i + 1]) == '2';
  }

  /** Where the path spells `i2c`, the lowered path contains it. */
  lemma I2cToOccurrence(path: string, i: nat)
    requires SpellsI2cAt(path, i)
    ensures OccursAt(ToLower(path), "i2c", i)
  {
    var t := ToLower(path);
    var w := t[i..i + 3];
    assert w[0] == 'i' && w[1] == '2' && w[2] == 'c';
    assert w == "i2c";
  }

  /** The choice of transport ignores case: a path and its lowered form select the same. */
  lemma SelectDeviceIgnoresCase(path: string)
    ensures SelectDevice(ToLower(path)) == SelectDevice(path)
  {
    ToLowerIdempotent(path);
  }

  /** The default device is the sub-device; a bus such as `/dev/I2C-1` is the raw bus. */
  lemma SelectDeviceExamples()
    ensures SelectDevice("/dev/v4l-subdev1") == Calibrate.SubDevice
    ensures SelectDevice("/dev/I2C-1") == Calibrate.I2cBus
  {
    assert OccursAt(ToLower("/dev/I2C-1"), "i2c", 5);
    var t := ToLower("/dev/v4l-subdev1");
    assert t == "/dev/v4l-subdev1";
    forall i: nat | i < |t|
      ensures t[i] != '2'
    {
    }
    forall i: nat
      ensures !OccursAt(t, "i2c", i)
    {
      if i + 3 <= |t| {
        assert t[i..i + 3][1] == t[i + 1];
      }
    }
  }

  /** The value of a hexadecimal digit in either case. */
  function HexDigit(c: char): (v: Option<nat>)
    ensures v.Some? ==> v.value < 16
  {
    if '0' <= c <= '9' then Some(c as int - '0' as int)
    else if 'a' <= c <= 'f' then Some(c as int - 'a' as int + 10)
    else if 'A' <= c <= 'F' then Some(c as int - 'A' as int + 10)
    else None
  }

  /** The run of hexadecimal digits `s` starts with. */
  function LeadingDigits(s: string): (d: string)
    ensures |d| <= |s| && d == s[..|d|]
    ensures forall i :: 0 <= i < |d| ==> HexDigit(d[i]).Some?
    ensures |d| < |s| ==> HexDigit(s[|d|]).None?
    decreases |s|
  {
    if |s| == 0 || HexDigit(s[0]).None? then []
    else
      var rest := LeadingDigits(s[1..]);
      assert s[..1 + |rest|] == [s[0]] + s[1..][..|rest|];
      [s[0]] + rest
  }

  /** The value of a string of hexadecimal digits, most significant first. */
  function HexValue(s: string): (v: nat)
    requires forall i :: 0 <= i < |s| ==> HexDigit(s[i]).Some?
    decreases |s|
  {
    if |s| == 0 then 0 else HexValue(s[..|s| - 1]) * 16 + HexDigit(s[|s| - 1]).value
  }

  /** The range of `int`, outside which `std::stoi` throws. */
  const IntMin: int := -0x8000_0000
  const IntMax: int := 0x7FFF_FFFF

  /** The characters `isspace` accepts in the "C" locale. */
  predicate IsSpace(c: char) {
    c == ' ' || c == '\t' || c == '\n' || c == '\U{0B}' || c == '\U{0C}' || c == '\r'
  }

  /** `s` without its leading white space. */
  function SkipSpace(s: string): (r: string)
    ensures |r| <= |s| && r == s[|s| - |r|..]
    ensures |r| > 0 ==> !IsSpace(r[0])
    decreases |s|
  {
    if |s| > 0 && IsSpace(s[0]) then SkipSpace(s[1..]) else s
  }

  /** `s` with a `0x` or `0X` prefix removed when a hexadecimal digit follows it, as `strtol` does in base 16. */
  function SkipHexPrefix(s: string): (r: string)
    ensures |r| <= |s| && r == s[|s| - |r|..]
  {
    if |s| >= 3 && s[0] == '0' && (s[1] == 'x' || s[1] == 'X') && HexDigit(s[2]).Some? then s[2..] else s
  }

  /** An optional sign: whether it is `-`, and what follows it. */
  function SplitSign(t: string): (p: (bool, string))
    ensures |p.1| <= |t| && p.1 == t[|t| - |p.1|..]
  {
    if |t| > 0 && (t[0] == '-' || t[0] == '+') then (t[0] == '-', t[1..]) else (false, t)
  }

  /** A value `std::stoi` returns, or `None` when it throws `out_of_range`. */
  function FitInt(v: int): (r: Option<int>)
    ensures r.Some? <==> IntMin <= v <= IntMax
    ensures r.Some? ==> r.value == v
  {
    if IntMin <= v <= IntMax then Some(v) else None
  }

  /**
    `std::stoi(s, nullptr, 16)`: white space, an optional sign, an optional
    `0x`, then the longest run of hexadecimal digits; it fails when there is
    no digit or the value does not fit an `int`.
   */
  function Stoi16(s: string): (r: Option<int>)
    ensures r.Some? ==> IntMin <= r.value <= IntMax
    ensures NoHexDigit(s) ==> r.None?
  {
    var sign := SplitSign(SkipSpace(s));
    NoDigitNoValue(s);
    ReadDigits(sign.0, LeadingDigits(SkipHexPrefix(sign.1)))
  }

  /** `s` holds no hexadecimal digit at all. */
  predicate NoHexDigit(s: string) {
    forall i :: 0 <= i < |s| ==> HexDigit(s[i]).None?
  }

  /** Without a hexadecimal digit anywhere, the digits `std::stoi` reads after the prefixes are none. */
  lemma NoDigitNoValue(s: string)
    ensures NoHexDigit(s) ==> LeadingDigits(SkipHexPrefix(SplitSign(SkipSpace(s)).1)) == []
  {
    if NoHexDigit(s) {
      var x := SkipHexPrefix(SplitSign(SkipSpace(s)).1);
      SuffixHasNoDigit(s, SkipSpace(s));
      SuffixHasNoDigit(SkipSpace(s), SplitSign(SkipSpace(s)).1);
      SuffixHasNoDigit(SplitSign(SkipSpace(s)).1, x);
      if |x| > 0 {
        assert HexDigit(x[0]).None?;
      }
    }
  }

  /** A suffix of a string without hexadecimal digits has none either. */
  lemma SuffixHasNoDigit(s: string, x: string)
    requires NoHexDigit(s) && |x| <= |s| && x == s[|s| - |x|..]
    ensures NoHexDigit(x)
  {
    forall i | 0 <= i < |x|
      ensures HexDigit(x[i]).None?
    {
      assert x[i] == s[|s| - |x| + i];
    }
  }

  /** The value of the digits `d` read after the sign: none without a digit, none out of range. */
  function ReadDigits(negative: bool, d: string): (r: Option<int>)
    requires AllHex(d)
    ensures r.None? <==> |d| == 0 || !(IntMin <= (if negative then -(HexValue(d) as int) else HexValue(d)) <= IntMax)
    ensures r.Some? ==> r.value == (if negative then -(HexValue(d) as int) else HexValue(d))
  {
    if |d| == 0 then None
    else FitInt(if negative then -(HexValue(d) as int) else HexValue(d))
  }

  /** `parseAddr`: drop a leading `0x` in any case, then read the rest in base 16. */
  function ParseAddr(s: string): (r: Option<int>)
    ensures r.Some? ==> IntMin <= r.value <= IntMax
    ensures NoHexDigit(s) ==> r.None?
  {
    var h := if StartsWith(ToLower(s), "0x") then s[2..] else s;
    if NoHexDigit(s) then
      SuffixHasNoDigit(s, h);
      Stoi16(h)
    else Stoi16(h)
  }

  /** The digit of value `d` as `ToHex` writes it. */
  function DigitChar(d: nat): (c: char)
    requires d < 16
    ensures HexDigit(c) == Some(d)
  {
    if d < 10 then ('0' as int + d) as char else ('a' as int + d - 10) as char
  }

  /** The hexadecimal digits of `n`, most significant first, without leading zeros (`"0"` for zero). */
  function ToHex(n: nat): (s: string)
    ensures |s| > 0
    ensures forall i :: 0 <= i < |s| ==> HexDigit(s[i]).Some?
    decreases n
  {
    if n < 16 then [DigitChar(n)] else ToHex(n / 16) + [DigitChar(n % 16)]
  }

  /** Reading back the digits `ToHex` writes gives the number. */
  lemma {:induction false} HexValueToHex(n: nat)
    ensures HexValue(ToHex(n)) == n
    decreases n
  {
    var s := ToHex(n);
    if n >= 16 {
      HexValueToHex(n / 16);
      assert s[..|s| - 1] == ToHex(n / 16);
    }
  }

  /** Every character of `s` is a hexadecimal digit. */
  predicate AllHex(s: string) {
    forall i :: 0 <= i < |s| ==> HexDigit(s[i]).Some?
  }

  /** A string of digits has no white space, sign or `0x` in front to skip. */
  lemma DigitsHaveNoPrefix(h: string)
    requires |h| > 0 && AllHex(h)
    ensures SplitSign(SkipSpace(h)) == (false, h)
    ensures SkipHexPrefix(h) == h
  {
    DigitIsNotSpaceOrSign(h[0]);
    assert SkipSpace(h) == h;
    if |h| >= 3 {
      DigitIsNotX(h[1]);
    }
  }

  /** No hexadecimal digit is white space or a sign. */
  lemma DigitIsNotSpaceOrSign(c: char)
    requires HexDigit(c).Some?
    ensures !IsSpace(c) && c != '-' && c != '+'
  {
  }

  /** No hexadecimal digit is the `x` of a `0x` prefix. */
  lemma DigitIsNotX(c: char)
    requires HexDigit(c).Some?
    ensures c != 'x' && c != 'X'
  {
  }

  /** A string of digits is its own leading run. */
  lemma LeadingDigitsOfDigits(h: string)
    requires AllHex(h)
    ensures LeadingDigits(h) == h
  {
  }

  /** A non-empty string of digits, with nothing around them, is read whole by `std::stoi`. */
  lemma Stoi16Digits(h: string)
    requires |h| > 0 && AllHex(h) && HexValue(h) <= IntMax
    ensures Stoi16(h) == Some(HexValue(h))
  {
    DigitsHaveNoPrefix(h);
    LeadingDigitsOfDigits(h);
    var sign := SplitSign(SkipSpace(h));
    assert sign.0 == false && sign.1 == h;
    assert LeadingDigits(SkipHexPrefix(sign.1)) == h;
    assert Stoi16(h) == ReadDigits(false, h);
  }

  /**
    A string of digits behind a sign is read whole and signed: `-` negates,
    `+` does not, and the result is there exactly when it fits an `int`.
   */
  lemma Stoi16Signed(h: string)
    requires |h| > 0 && AllHex(h)
    ensures Stoi16("-" + h) == FitInt(-(HexValue(h) as int))
    ensures Stoi16("+" + h) == FitInt(HexValue(h))
  {
    DigitsHaveNoPrefix(h);
    LeadingDigitsOfDigits(h);
    SignedDigits('-', h);
    SignedDigits('+', h);
    assert "-" + h == ['-'] + h && "+" + h == ['+'] + h;
    ReadSigned(h);
  }

  /** The signed value of digits read after a sign. */
  lemma ReadSigned(h: string)
    requires |h| > 0 && AllHex(h)
    ensures ReadDigits(true, h) == FitInt(-(HexValue(h) as int))
    ensures ReadDigits(false, h) == FitInt(HexValue(h))
  {
  }

  /** What `std::stoi` reads of a sign followed by digits: the sign, then the digits whole. */
  lemma SignedDigits(c: char, h: string)
    requires c == '-' || c == '+'
    requires |h| > 0 && AllHex(h) && SkipHexPrefix(h) == h && LeadingDigits(h) == h
    ensures Stoi16([c] + h) == ReadDigits(c == '-', h)
  {
    SignThenRest(c, h);
  }

  /** A sign in front is no white space; it is taken off and says whether the value is negated. */
  lemma SignThenRest(c: char, h: string)
    requires c == '-' || c == '+'
    ensures SplitSign(SkipSpace([c] + h)) == (c == '-', h)
  {
    var s := [c] + h;
    assert !IsSpace(s[0]);
    assert SkipSpace(s) == s;
    assert s[1..] == h;
  }

  /** The ends of the `int` range: `-80000000` is the least value read, `7fffffff` the greatest, and `80000000` is out of range. */
  lemma Stoi16Extremes()
    ensures Stoi16("-" + ToHex(0x8000_0000)) == Some(IntMin)
    ensures Stoi16(ToHex(0x7FFF_FFFF)) == Some(IntMax)
    ensures Stoi16(ToHex(0x8000_0000)) == None
  {
    HexValueToHex(0x8000_0000);
    HexValueToHex(0x7FFF_FFFF);
    Stoi16Signed(ToHex(0x8000_0000));
    Stoi16Digits(ToHex(0x7FFF_FFFF));
    DigitsHaveNoPrefix(ToHex(0x8000_0000));
    LeadingDigitsOfDigits(ToHex(0x8000_0000));
  }

  /** `parseAddr` reads what follows a `0x` or `0X` prefix. */
  lemma ParseAddrStripsPrefix(s: string)
    requires |s| >= 2 && s[0] == '0' && (s[1] == 'x' || s[1] == 'X')
    ensures ParseAddr(s) == Stoi16(s[2..])
  {
    assert ToLower(s)[..2] == "0x";
  }

  /** An address written as `0x` and its hexadecimal digits parses back to itself. */
  lemma ParseAddrToHex(n: nat)
    requires n <= IntMax
    ensures ParseAddr("0x" + ToHex(n)) == Some(n)
  {
    HexValueToHex(n);
    Stoi16Digits(ToHex(n));
    var s := "0x" + ToHex(n);
    ParseAddrStripsPrefix(s);
    assert s[2..] == ToHex(n);
  }

  /** The default address `0x0d` is the adapter's address 13. */
  lemma DefaultAddress()
    ensures ParseAddr("0x0d") == Some(13)
  {
    var s := "0x0d";
    var h := s[2..];
    assert |h| == 2 && h[0] == '0' && h[1] == 'd';
    assert HexValue(h[..1]) == 0;
    assert HexValue(h) == 13;
    Stoi16Digits(h);
    ParseAddrStripsPrefix(s);
  }
}
