/**
 * The program's command line: a Bella scene file (.bsz, .bsa or .bsx) and an
 * optional `-p`/`--port` value. The port is parsed and stored, but both loops
 * bind their own fixed ports, so it is never used for binding.
 *
 * `ParseCommandLineArguments` is the scanning loop of Program.cs; `ParsedArguments`
 * says declaratively what it returns: the first `-p`/`--port` whose value does
 * not parse is an error, otherwise the last scene file wins (none is an error)
 * and the value after the last `-p`/`--port` is the port.
 */
module CommandLine {
  import opened Wrappers
  import opened Formatting

  const UsageLine := "Usage: program <file.bsz> [-p port]"
  const UsageMessage := UsageLine + "\n" + "A Bella scene file (.bsz, .bsa, or .bsx) is required"
  const DefaultPort := 8799
  const InvalidPortPrefix := "Invalid port number: "

  datatype Config = Config(bellaFilePath: string, port: int)

  /** The two `ArgumentException`s the parser throws. */
  datatype ArgumentError = MissingSceneFile | InvalidPortNumber(value: string)

  /** The exception's message; the two errors never share one. */
  function ErrorMessage(e: ArgumentError): (m: string)
    ensures m == UsageMessage <==> e.MissingSceneFile?
    ensures e.InvalidPortNumber? ==>
      && |InvalidPortPrefix| <= |m|
      && m[..|InvalidPortPrefix|] == InvalidPortPrefix
      && m[|InvalidPortPrefix|..] == e.value
  {
    match e
    case MissingSceneFile => UsageMessage
    case InvalidPortNumber(v) =>
      var m := InvalidPortPrefix + v;
      assert InvalidPortPrefix[0] == 'I';
      assert UsageMessage[0] == UsageLine[0] == 'U';
      assert m[0] == 'I';
      m
  }

  // ---------------------------------------------------------------------
  // Scene file names

  /** Upper-case of an ASCII letter; every other character is its own upper case. */
  function ToUpperAscii(c: char): char {
    if 'a' <= c <= 'z' then (c as int - 32) as char else c
  }

  /** Every character upper-cased. */
  function UpperAscii(s: string): (u: string)
    ensures |u| == |s|
  {
    if s == [] then [] else [ToUpperAscii(s[0])] + UpperAscii(s[1..])
  }

  /** Each character of the upper-cased string is the upper case of the original one. */
  lemma {:induction false} UpperAsciiAt(s: string, k: nat)
    requires k < |s|
    ensures UpperAscii(s)[k] == ToUpperAscii(s[k])
  {
    if k > 0 {
      UpperAsciiAt(s[1..], k - 1);
    }
  }

  /** `s.EndsWith(suffix, StringComparison.OrdinalIgnoreCase)`: the tail of `s` equals `suffix` once both are upper-cased. */
  predicate EndsWithIgnoreCase(s: string, suffix: string) {
    |suffix| <= |s| && UpperAscii(s[|s| - |suffix|..]) == UpperAscii(suffix)
  }

  predicate IsBellaFile(filePath: string) {
    || EndsWithIgnoreCase(filePath, ".bsz")
    || EndsWithIgnoreCase(filePath, ".bsa")
    || EndsWithIgnoreCase(filePath, ".bsx")
  }

  /** A character matches a lower-case ASCII letter, ignoring case, exactly when it is that letter or its capital. */
  lemma MatchesLetterIgnoringCase(c: char, lower: char)
    requires 'a' <= lower <= 'z'
    ensures ToUpperAscii(c) == ToUpperAscii(lower) <==> c == lower || c == ToUpperAscii(lower)
  {
  }

  /** The last four characters are a dot, 'b', 's' and `last`, each in either case. */
  lemma EndsWithBellaSuffix(s: string, last: char)
    requires |s| >= 4 && 'a' <= last <= 'z'
    ensures EndsWithIgnoreCase(s, ".bs" + [last]) <==>
      && s[|s| - 4] == '.'
      && (s[|s| - 3] == 'b' || s[|s| - 3] == 'B')
      && (s[|s| - 2] == 's' || s[|s| - 2] == 'S')
      && (s[|s| - 1] == last || s[|s| - 1] == ToUpperAscii(last))
  {
    var n := |s|;
    var suffix := ".bs" + [last];
    MatchesLetterIgnoringCase(s[n - 3], 'b');
    MatchesLetterIgnoringCase(s[n - 2], 's');
    MatchesLetterIgnoringCase(s[n - 1], last);
    assert suffix[0] == '.' && suffix[1] == 'b' && suffix[2] == 's' && suffix[3] == last;
    var tail := s[n - 4..];
    var u := UpperAscii(tail);
    var v := UpperAscii(suffix);
    assert tail[0] == s[n - 4] && tail[1] == s[n - 3] && tail[2] == s[n - 2] && tail[3] == s[n - 1];
    forall k | 0 <= k < 4 ensures u[k] == ToUpperAscii(tail[k]) && v[k] == ToUpperAscii(suffix[k]) {
      UpperAsciiAt(tail, k);
      UpperAsciiAt(suffix, k);
    }
    if u == v {
      assert u[0] == v[0] && u[1] == v[1] && u[2] == v[2] && u[3] == v[3];
    }
    if s[n - 4] == '.' && (s[n - 3] == 'b' || s[n - 3] == 'B') && (s[n - 2] == 's' || s[n - 2] == 'S')
       && (s[n - 1] == last || s[n - 1] == ToUpperAscii(last))
    {
      forall k | 0 <= k < 4 ensures u[k] == v[k] {
        if k == 0 { } else if k == 1 { } else if k == 2 { } else { }
      }
    }
  }

  /** A scene file is named by a dot, a 'b', an 's' and one of 'z', 'a', 'x', in either case. */
  lemma IsBellaFileIff(s: string)
    ensures IsBellaFile(s) <==>
      && |s| >= 4
      && s[|s| - 4] == '.'
      && (s[|s| - 3] == 'b' || s[|s| - 3] == 'B')
      && (s[|s| - 2] == 's' || s[|s| - 2] == 'S')
      && (s[|s| - 1] == 'z' || s[|s| - 1] == 'Z' || s[|s| - 1] == 'a' || s[|s| - 1] == 'A'
          || s[|s| - 1] == 'x' || s[|s| - 1] == 'X')
  {
    if |s| >= 4 {
      assert ".bsz" == ".bs" + ['z'] && ".bsa" == ".bs" + ['a'] && ".bsx" == ".bs" + ['x'];
      assert ToUpperAscii('z') == 'Z' && ToUpperAscii('a') == 'A' && ToUpperAscii('x') == 'X';
      EndsWithBellaSuffix(s, 'z');
      EndsWithBellaSuffix(s, 'a');
      EndsWithBellaSuffix(s, 'x');
    }
  }

  // ---------------------------------------------------------------------
  // The declarative reading of the command line

  predicate IsPortOption(arg: string) {
    arg == "-p" || arg == "--port"
  }

  /** `args[j]` is a port option that has an argument after it. */
  predicate TakesPortValue(args: seq<string>, j: int) {
    0 <= j && j + 1 < |args| && IsPortOption(args[j])
  }

  /** `args[j]` is a port option followed by something `int.TryParse` rejects. */
  predicate InvalidPortAt(args: seq<string>, j: int) {
    TakesPortValue(args, j) && ParseInt32(args[j + 1]).None?
  }

  /** The first position before `n` where an invalid port value is given. */
  function FirstInvalidPort(args: seq<string>, n: nat): (r: Option<nat>)
    requires n <= |args|
    ensures r.Some? ==> r.value < n && InvalidPortAt(args, r.value)
  {
    if n == 0 then None
    else match FirstInvalidPort(args, n - 1)
      case Some(j) => Some(j)
      case None => if InvalidPortAt(args, n - 1) then Some(n - 1) else None
  }

  /** The last position before `n` that holds a scene file name. */
  function LastBellaFile(args: seq<string>, n: nat): (r: Option<nat>)
    requires n <= |args|
    ensures r.Some? ==> r.value < n && IsBellaFile(args[r.value])
  {
    if n == 0 then None
    else if IsBellaFile(args[n - 1]) then Some(n - 1)
    else LastBellaFile(args, n - 1)
  }

  /** The last position before `n` that holds a port option with a value after it. */
  function LastPortOption(args: seq<string>, n: nat): (r: Option<nat>)
    requires n <= |args|
    ensures r.Some? ==> r.value < n && TakesPortValue(args, r.value)
  {
    if n == 0 then None
    else if TakesPortValue(args, n - 1) then Some(n - 1)
    else LastPortOption(args, n - 1)
  }

  /** No position before the one `FirstInvalidPort` finds, or before `n` when it finds none, holds an invalid port value. */
  lemma {:induction false} FirstInvalidPortIsFirst(args: seq<string>, n: nat)
    requires n <= |args|
    ensures var r := FirstInvalidPort(args, n);
      && (r.Some? ==> forall j | 0 <= j < r.value :: !InvalidPortAt(args, j))
      && (r.None? ==> forall j | 0 <= j < n :: !InvalidPortAt(args, j))
  {
    if n > 0 {
      FirstInvalidPortIsFirst(args, n - 1);
    }
  }

  /** No position after the one `LastBellaFile` finds, or before `n` when it finds none, names a scene file. */
  lemma {:induction false} LastBellaFileIsLast(args: seq<string>, n: nat)
    requires n <= |args|
    ensures var r := LastBellaFile(args, n);
      && (r.Some? ==> forall j | r.value < j < n :: !IsBellaFile(args[j]))
      && (r.None? ==> forall j | 0 <= j < n :: !IsBellaFile(args[j]))
  {
    if n > 0 && !IsBellaFile(args[n - 1]) {
      LastBellaFileIsLast(args, n - 1);
    }
  }

  /** No position after the one `LastPortOption` finds, or before `n` when it finds none, is a port option with a value. */
  lemma {:induction false} LastPortOptionIsLast(args: seq<string>, n: nat)
    requires n <= |args|
    ensures var r := LastPortOption(args, n);
      && (r.Some? ==> forall j | r.value < j < n :: !TakesPortValue(args, j))
      && (r.None? ==> forall j | 0 <= j < n :: !TakesPortValue(args, j))
  {
    if n > 0 && !TakesPortValue(args, n - 1) {
      LastPortOptionIsLast(args, n - 1);
    }
  }

  /** The port the value after the last port option (among the first `n` arguments) selects. */
  function PortSetting(args: seq<string>, n: nat): int
    requires n <= |args|
  {
    match LastPortOption(args, n)
    case None => DefaultPort
    case Some(j) => ParseInt32(args[j + 1]).GetOr(DefaultPort)
  }

  /** The scene file the last scene file name among the first `n` arguments selects; "" when there is none. */
  function SceneSetting(args: seq<string>, n: nat): string
    requires n <= |args|
  {
    match LastBellaFile(args, n)
    case None => ""
    case Some(b) => args[b]
  }

  /** What the command line means, or which exception it raises. */
  function ParsedArguments(args: seq<string>): Result<Config, ArgumentError> {
    if |args| == 0 then Failure(MissingSceneFile)
    else match FirstInvalidPort(args, |args|)
      case Some(j) => Failure(InvalidPortNumber(args[j + 1]))
      case None =>
        match LastBellaFile(args, |args|)
        case None => Failure(MissingSceneFile)
        case Some(b) => Success(Config(args[b], PortSetting(args, |args|)))
  }

  /** A string `int.TryParse` accepts is neither a scene file nor a port option. */
  lemma ParsedIntIsPlain(s: string)
    requires ParseInt32(s).Some?
    ensures !IsBellaFile(s) && !IsPortOption(s)
  {
    AcceptedIntShape(s);
    IsBellaFileIff(s);
    if |s| >= 4 {
      var k := |s| - 4;
      assert IsDigit(s[k]) || s[k] == '-' || s[k] == '+';
    }
    assert |s| >= 2 ==> IsDigit(s[1]);
    assert !IsDigit("-p"[1]) && !IsDigit("--port"[1]);
  }

  /** A port option is not a scene file name. */
  lemma PortOptionIsNotBellaFile(s: string)
    requires IsPortOption(s)
    ensures !IsBellaFile(s)
  {
    IsBellaFileIff(s);
    assert "--port"[2] != '.';
  }

  /** The first invalid port value found by the scan is the one the declarative reading reports. */
  lemma FirstInvalidPortIs(args: seq<string>, i: nat)
    requires i < |args| && FirstInvalidPort(args, i).None? && InvalidPortAt(args, i)
    ensures FirstInvalidPort(args, |args|) == Some(i)
  {
    assert FirstInvalidPort(args, i + 1) == Some(i);
    FirstInvalidPortSettled(args, i + 1, |args|);
  }

  /** Once the scan has found an invalid port value, looking further does not change it. */
  lemma {:induction false} FirstInvalidPortSettled(args: seq<string>, m: nat, n: nat)
    requires m <= n <= |args| && FirstInvalidPort(args, m).Some?
    ensures FirstInvalidPort(args, n) == FirstInvalidPort(args, m)
    decreases n
  {
    if m < n {
      FirstInvalidPortSettled(args, m, n - 1);
    }
  }

  /** Scanning past an argument that is not a port option with a value after it. */
  lemma PlainArgumentStep(args: seq<string>, i: nat)
    requires i < |args| && FirstInvalidPort(args, i).None?
    requires IsBellaFile(args[i]) || !TakesPortValue(args, i)
    ensures FirstInvalidPort(args, i + 1).None?
    ensures SceneSetting(args, i + 1) == if IsBellaFile(args[i]) then args[i] else SceneSetting(args, i)
    ensures PortSetting(args, i + 1) == PortSetting(args, i)
  {
    if IsPortOption(args[i]) {
      PortOptionIsNotBellaFile(args[i]);
    }
  }

  /** Scanning past a port option and the value `int.TryParse` accepts after it. */
  lemma PortValueStep(args: seq<string>, i: nat)
    requires TakesPortValue(args, i) && FirstInvalidPort(args, i).None?
    requires ParseInt32(args[i + 1]).Some?
    ensures FirstInvalidPort(args, i + 2).None?
    ensures SceneSetting(args, i + 2) == SceneSetting(args, i)
    ensures PortSetting(args, i + 2) == ParseInt32(args[i + 1]).value
  {
    PortOptionIsNotBellaFile(args[i]);
    ParsedIntIsPlain(args[i + 1]);
    assert FirstInvalidPort(args, i + 1).None?;
    assert LastBellaFile(args, i + 1) == LastBellaFile(args, i);
    assert LastPortOption(args, i + 2) == Some(i);
  }

  // ---------------------------------------------------------------------
  // The scanning loop

  method ParseCommandLineArguments(args: seq<string>) returns (r: Result<Config, ArgumentError>)
    ensures r == ParsedArguments(args)
  {
    if |args| == 0 {
      return Failure(MissingSceneFile);
    }
    var bellaFilePath := "";
    var port := DefaultPort;
    var i := 0;
    while i < |args|
      invariant 0 <= i <= |args|
      invariant FirstInvalidPort(args, i).None?
      invariant bellaFilePath == SceneSetting(args, i)
      invariant port == PortSetting(args, i)
    {
      var arg := args[i];
      if IsBellaFile(arg) {
        PlainArgumentStep(args, i);
        bellaFilePath := arg;
      } else if IsPortOption(arg) && i + 1 < |args| {
        var parsed := ParseInt32(args[i + 1]);
        if parsed.Some? {
          PortValueStep(args, i);
          port := parsed.value;
          i := i + 1;
        } else {
          FirstInvalidPortIs(args, i);
          return Failure(InvalidPortNumber(args[i + 1]));
        }
      } else {
        PlainArgumentStep(args, i);
      }
      i := i + 1;
    }
    if bellaFilePath == "" {
      return Failure(MissingSceneFile);
    }
    assert LastBellaFile(args, |args|).Some?;
    return Success(Config(bellaFilePath, port));
  }

  // ---------------------------------------------------------------------
  // What the command line means

  /** The usage error is raised exactly when no port value is invalid and no argument names a scene file. */
  lemma UsageErrorIff(args: seq<string>)
    ensures ParsedArguments(args) == Failure(MissingSceneFile) <==>
      && (forall j :: !InvalidPortAt(args, j))
      && (forall k | 0 <= k < |args| :: !IsBellaFile(args[k]))
  {
    if |args| > 0 {
      FirstInvalidPortIsFirst(args, |args|);
      LastBellaFileIsLast(args, |args|);
      var first := FirstInvalidPort(args, |args|);
      if first.None? {
        assert forall j :: !InvalidPortAt(args, j) by {
          forall j ensures !InvalidPortAt(args, j) {
            if 0 <= j < |args| {
              assert !InvalidPortAt(args, j);
            }
          }
        }
      }
    }
  }

  /** On success the scene file is an argument with a scene extension, and no later argument has one. */
  lemma SceneFileIsLastOne(args: seq<string>)
    requires ParsedArguments(args).Success?
    ensures exists b | 0 <= b < |args| ::
      && args[b] == ParsedArguments(args).value.bellaFilePath
      && IsBellaFile(args[b])
      && forall k | b < k < |args| :: !IsBellaFile(args[k])
  {
    LastBellaFileIsLast(args, |args|);
    var b := LastBellaFile(args, |args|).value;
    assert args[b] == ParsedArguments(args).value.bellaFilePath;
  }

  /** When no port value is invalid, the last argument with a scene extension is the one chosen. */
  lemma LastSceneFileChosen(args: seq<string>, b: nat)
    requires forall j :: !InvalidPortAt(args, j)
    requires b < |args| && IsBellaFile(args[b])
    requires forall k | b < k < |args| :: !IsBellaFile(args[k])
    ensures ParsedArguments(args).Success?
    ensures ParsedArguments(args).value.bellaFilePath == args[b]
  {
    LastBellaFileIsLast(args, |args|);
    var last := LastBellaFile(args, |args|);
    assert last.Some?;
    assert !(b < last.value) && !(last.value < b);
  }

  /** Without a port option that has a value after it, the port is 8799. */
  lemma DefaultPortWithoutOption(args: seq<string>)
    requires ParsedArguments(args).Success?
    requires forall j :: !TakesPortValue(args, j)
    ensures ParsedArguments(args).value.port == DefaultPort
  {
    LastPortOptionIsLast(args, |args|);
    assert LastPortOption(args, |args|).None?;
  }

  /** The port is the value after the last port option that has one, whatever its range. */
  lemma PortFromLastOption(args: seq<string>, j: nat)
    requires ParsedArguments(args).Success?
    requires TakesPortValue(args, j)
    requires forall k | j < k < |args| :: !TakesPortValue(args, k)
    ensures ParseInt32(args[j + 1]) == Some(ParsedArguments(args).value.port)
  {
    LastPortOptionIsLast(args, |args|);
    var last := LastPortOption(args, |args|);
    assert last.Some?;
    assert !(j < last.value) && !(last.value < j);
    FirstInvalidPortIsFirst(args, |args|);
    assert !InvalidPortAt(args, j);
  }

  /** There is no range check: any 32-bit value after the option becomes the port, negative or above 65535. */
  lemma AnyIntegerPortAccepted(scene: string, option: string, n: int)
    requires IsBellaFile(scene) && IsPortOption(option) && Int32Min <= n <= Int32Max
    ensures ParsedArguments([scene, option, IntToString(n)]) == Success(Config(scene, n))
  {
    var args := [scene, option, IntToString(n)];
    ParseIntToString(n);
    ParsedIntIsPlain(IntToString(n));
    PortOptionIsNotBellaFile(option);
    assert !IsPortOption(scene) by {
      IsBellaFileIff(scene);
      assert "--port"[2] != '.';
    }
    assert !TakesPortValue(args, 0) && TakesPortValue(args, 1) && !TakesPortValue(args, 2);
    assert args[2] == IntToString(n) && ParseInt32(args[2]) == Some(n);
    assert !InvalidPortAt(args, 0) && !InvalidPortAt(args, 1) && !InvalidPortAt(args, 2);
    assert FirstInvalidPort(args, 1).None?;
    assert FirstInvalidPort(args, 2).None?;
    assert FirstInvalidPort(args, 3).None?;
    assert args[0] == scene && args[1] == option;
    assert !IsBellaFile(args[1]) && !IsBellaFile(args[2]);
    assert LastBellaFile(args, 1) == Some(0);
    assert LastBellaFile(args, 2) == Some(0);
    assert LastBellaFile(args, 3) == Some(0);
    assert LastPortOption(args, 3) == Some(1);
  }

  /** The first port option whose value `int.TryParse` rejects is the error reported. */
  lemma InvalidPortReported(args: seq<string>, j: nat)
    requires InvalidPortAt(args, j)
    requires forall i | 0 <= i < j :: !InvalidPortAt(args, i)
    ensures ParsedArguments(args) == Failure(InvalidPortNumber(args[j + 1]))
  {
    FirstInvalidPortIsFirst(args, |args|);
    var first := FirstInvalidPort(args, |args|);
    assert first.Some?;
    assert !(first.value < j);
  }

  /** An invalid-port error always names the value that follows some port option. */
  lemma InvalidPortHasOption(args: seq<string>)
    requires ParsedArguments(args).Failure? && ParsedArguments(args).error.InvalidPortNumber?
    ensures exists j :: InvalidPortAt(args, j) && args[j + 1] == ParsedArguments(args).error.value
  {
    var j := FirstInvalidPort(args, |args|).value;
    assert InvalidPortAt(args, j);
  }

  /** A scene file name placed after `-p`/`--port` is taken as the port value and rejected. */
  lemma SceneFileAsPortValueFails(args: seq<string>, j: nat)
    requires TakesPortValue(args, j) && IsBellaFile(args[j + 1])
    ensures ParsedArguments(args).Failure?
    ensures ParsedArguments(args).error.InvalidPortNumber?
  {
    if ParseInt32(args[j + 1]).Some? {
      ParsedIntIsPlain(args[j + 1]);
    }
    assert InvalidPortAt(args, j);
    FirstInvalidPortIsFirst(args, |args|);
    assert FirstInvalidPort(args, |args|).Some?;
  }

  /** Two argument lists that agree on their first `n` positions (and on which of them take a port value) are scanned alike up to `n`. */
  ghost predicate AgreeUpTo(a: seq<string>, b: seq<string>, n: nat) {
    && n <= |a| && n <= |b|
    && (forall j | 0 <= j < n :: a[j] == b[j])
    && (forall j | 0 <= j < n :: TakesPortValue(a, j) <==> TakesPortValue(b, j))
    && (forall j | 0 <= j < n :: TakesPortValue(a, j) && TakesPortValue(b, j) ==> a[j + 1] == b[j + 1])
  }

  lemma {:induction false} InvalidPortScanAgrees(a: seq<string>, b: seq<string>, n: nat)
    requires AgreeUpTo(a, b, n)
    ensures FirstInvalidPort(a, n) == FirstInvalidPort(b, n)
  {
    if n > 0 {
      assert AgreeUpTo(a, b, n - 1);
      InvalidPortScanAgrees(a, b, n - 1);
      assert InvalidPortAt(a, n - 1) <==> InvalidPortAt(b, n - 1);
    }
  }

  lemma {:induction false} SceneScanAgrees(a: seq<string>, b: seq<string>, n: nat)
    requires AgreeUpTo(a, b, n)
    ensures LastBellaFile(a, n) == LastBellaFile(b, n)
  {
    if n > 0 {
      assert AgreeUpTo(a, b, n - 1);
      SceneScanAgrees(a, b, n - 1);
      assert a[n - 1] == b[n - 1];
    }
  }

  lemma {:induction false} PortScanAgrees(a: seq<string>, b: seq<string>, n: nat)
    requires AgreeUpTo(a, b, n)
    ensures LastPortOption(a, n) == LastPortOption(b, n)
  {
    if n > 0 {
      assert AgreeUpTo(a, b, n - 1);
      PortScanAgrees(a, b, n - 1);
      assert TakesPortValue(a, n - 1) <==> TakesPortValue(b, n - 1);
    }
  }

  /**
   * An argument that is not a scene file, appended where it cannot be a port
   * value, is ignored; in particular a trailing `-p` or `--port`.
   */
  lemma AppendedArgumentIgnored(args: seq<string>, x: string)
    requires !IsBellaFile(x)
    requires |args| > 0 ==> !IsPortOption(args[|args| - 1])
    ensures ParsedArguments(args + [x]) == ParsedArguments(args)
  {
    var longer := args + [x];
    var n := |args|;
    if n > 0 {
      AppendedScansAgree(args, x);
      assert !InvalidPortAt(longer, n) && !TakesPortValue(longer, n) && !IsBellaFile(longer[n]);
      assert FirstInvalidPort(longer, n + 1) == FirstInvalidPort(args, n);
      assert LastBellaFile(longer, n + 1) == LastBellaFile(args, n);
      assert LastPortOption(longer, n + 1) == LastPortOption(args, n);
      match LastBellaFile(args, n) {
        case None =>
        case Some(b) => assert longer[b] == args[b];
      }
      match LastPortOption(args, n) {
        case None =>
        case Some(j) => assert longer[j + 1] == args[j + 1];
      }
      assert PortSetting(longer, n + 1) == PortSetting(args, n);
    } else {
      assert !TakesPortValue(longer, 0);
      assert FirstInvalidPort(longer, 1).None?;
      assert LastBellaFile(longer, 1).None?;
    }
  }

  /** Appending after an argument that is not a port option leaves the scans of the old positions unchanged. */
  lemma AppendedScansAgree(args: seq<string>, x: string)
    requires |args| > 0 && !IsPortOption(args[|args| - 1])
    ensures FirstInvalidPort(args + [x], |args|) == FirstInvalidPort(args, |args|)
    ensures LastBellaFile(args + [x], |args|) == LastBellaFile(args, |args|)
    ensures LastPortOption(args + [x], |args|) == LastPortOption(args, |args|)
  {
    AppendedAgrees(args, x);
    InvalidPortScanAgrees(args + [x], args, |args|);
    SceneScanAgrees(args + [x], args, |args|);
    PortScanAgrees(args + [x], args, |args|);
  }

  lemma AppendedAgrees(args: seq<string>, x: string)
    requires |args| > 0 && !IsPortOption(args[|args| - 1])
    ensures AgreeUpTo(args + [x], args, |args|)
  {
    var longer := args + [x];
    var n := |args|;
    assert forall j | 0 <= j < n :: longer[j] == args[j];
    forall j | 0 <= j < n
      ensures TakesPortValue(longer, j) <==> TakesPortValue(args, j)
    {
      if j == n - 1 {
        assert !IsPortOption(longer[j]);
      }
    }
  }
}
