/** Credential discovery (`build_wmic_wmi` in src/lcu.rs): choose whose
    captured standard output to scan, then pull the API port and the
    remoting auth token out of it with the two fixed patterns
    `--app-port=([0-9]+)` and `--remoting-auth-token=([\w-]+)`.
    Spawning `wmic` and `powershell` is I/O; their outcomes are inputs. */
module Discovery {
  import opened Results

  /** The character class of a pattern's capture group: `[0-9]` for the
      port, `[\w-]` for the token (word characters taken as ASCII). */
  datatype CharClass = AsciiDigit | WordOrHyphen

  predicate InClass(k: CharClass, c: char) {
    match k
    case AsciiDigit => '0' <= c <= '9'
    case WordOrHyphen =>
      'a' <= c <= 'z' || 'A' <= c <= 'Z' || '0' <= c <= '9' || c == '_' || c == '-'
  }

  predicate AllInClass(k: CharClass, s: string) {
    forall i :: 0 <= i < |s| ==> InClass(k, s[i])
  }

  const PortFlag: string := "--app-port="
  const TokenFlag: string := "--remoting-auth-token="

  /** The pattern `flag` followed by one or more characters of class `k`
      matches at index `i` of `s`. */
  predicate MatchesAt(s: string, flag: string, k: CharClass, i: nat) {
    i + |flag| < |s| && s[i..i + |flag|] == flag && InClass(k, s[i + |flag|])
  }

  /** `c` is the capture group of a match at `i`: a run of class `k` that
      starts right after the flag and cannot be extended (the `+` is greedy). */
  predicate CapturedAt(s: string, flag: string, k: CharClass, i: nat, c: string) {
    && MatchesAt(s, flag, k, i)
    && i + |flag| + |c| <= |s|
    && s[i + |flag|..i + |flag| + |c|] == c
    && AllInClass(k, c)
    && (i + |flag| + |c| == |s| || !InClass(k, s[i + |flag| + |c|]))
  }

  /** Length of the maximal run of class `k` starting at index `i`. */
  function RunLength(s: string, i: nat, k: CharClass): (n: nat)
    requires i <= |s|
    ensures i + n <= |s|
    ensures forall j :: i <= j < i + n ==> InClass(k, s[j])
    ensures i + n == |s| || !InClass(k, s[i + n])
    decreases |s| - i
  {
    if i == |s| || !InClass(k, s[i]) then 0 else 1 + RunLength(s, i + 1, k)
  }

  /** The leftmost index at or after `from` where the pattern matches. */
  function LeftmostMatch(s: string, flag: string, k: CharClass, from: nat): (r: Option<nat>)
    requires from <= |s|
    ensures r.Some? ==> from <= r.value && MatchesAt(s, flag, k, r.value)
    ensures r.Some? ==> forall j :: from <= j < r.value ==> !MatchesAt(s, flag, k, j)
    ensures r.None? ==> forall j :: from <= j ==> !MatchesAt(s, flag, k, j)
    decreases |s| - from
  {
    if from == |s| then None
    else if MatchesAt(s, flag, k, from) then Some(from)
    else LeftmostMatch(s, flag, k, from + 1)
  }

  /** `Regex::captures(s).and_then(|v| v.get(1))` for the pattern
      `flag([k]+)`: the capture group of the leftmost match, if any. */
  function Capture(s: string, flag: string, k: CharClass): (r: Option<string>)
    ensures r.None? <==> forall j: nat :: !MatchesAt(s, flag, k, j)
    ensures r.Some? ==> |r.value| > 0
    ensures r.Some? ==>
      exists i: nat :: CapturedAt(s, flag, k, i, r.value)
        && forall j :: 0 <= j < i ==> !MatchesAt(s, flag, k, j)
  {
    match LeftmostMatch(s, flag, k, 0)
    case None => None
    case Some(i) =>
      var n := RunLength(s, i + |flag|, k);
      var c := s[i + |flag|..i + |flag| + n];
      assert CapturedAt(s, flag, k, i, c);
      Some(c)
  }

  /** The captured part of the process query's output. */
  datatype PortAndToken = PortAndToken(port: string, authToken: string)

  /** Port first, then token: each missing pattern is its own error. */
  function ExtractCredentials(out: string): (r: Result<PortAndToken, string>)
    ensures Capture(out, PortFlag, AsciiDigit).None? ==> r == Err("Port not found")
    ensures Capture(out, PortFlag, AsciiDigit).Some? && Capture(out, TokenFlag, WordOrHyphen).None?
      ==> r == Err("Auth token not found")
    ensures r.Ok? ==>
      && Capture(out, PortFlag, AsciiDigit) == Some(r.value.port)
      && Capture(out, TokenFlag, WordOrHyphen) == Some(r.value.authToken)
    ensures r.Ok? ==>
      && r.value.port != [] && AllInClass(AsciiDigit, r.value.port)
      && r.value.authToken != [] && AllInClass(WordOrHyphen, r.value.authToken)
  {
    match Capture(out, PortFlag, AsciiDigit)
    case None => Err("Port not found")
    case Some(port) =>
      match Capture(out, TokenFlag, WordOrHyphen)
      case None => Err("Auth token not found")
      case Some(token) =>
        assert exists i: nat :: CapturedAt(out, PortFlag, AsciiDigit, i, port);
        assert exists i: nat :: CapturedAt(out, TokenFlag, WordOrHyphen, i, token);
        Ok(PortAndToken(port, token))
  }

  /** How one `Command::output()` call ended: it failed to spawn (the
      `io::Error`'s message), or the process ran and exited. */
  datatype CommandOutput = NotSpawned(error: string) | Exited(success: bool, stdout: string)

  /** Whose standard output is scanned: `wmic`'s whenever it spawned and
      exited successfully, matches or not; otherwise PowerShell's, whatever
      its exit status; a PowerShell spawn failure is the error. */
  function QueryOutput(wmic: CommandOutput, powershell: CommandOutput): (r: Result<string, string>)
    ensures wmic.Exited? && wmic.success ==> r == Ok(wmic.stdout)
    ensures !(wmic.Exited? && wmic.success) && powershell.NotSpawned? ==> r == Err(powershell.error)
    ensures !(wmic.Exited? && wmic.success) && powershell.Exited? ==> r == Ok(powershell.stdout)
  {
    match wmic
    case Exited(true, out) => Ok(out)
    case _ =>
      match powershell
      case NotSpawned(e) => Err(e)
      case Exited(_, out) => Ok(out)
  }

  /** `build_wmic_wmi`: the captured output, then the extraction. */
  function BuildWmicWmi(wmic: CommandOutput, powershell: CommandOutput): (r: Result<PortAndToken, string>)
    ensures QueryOutput(wmic, powershell).Err? ==> r == Err(QueryOutput(wmic, powershell).error)
    ensures QueryOutput(wmic, powershell).Ok? ==> r == ExtractCredentials(QueryOutput(wmic, powershell).value)
  {
    match QueryOutput(wmic, powershell)
    case Err(e) => Err(e)
    case Ok(out) => ExtractCredentials(out)
  }

  /** A successful `wmic` is final: PowerShell's outcome cannot change the
      result, even when `wmic`'s output holds no credentials. */
  lemma WmicSuccessIsFinal(stdout: string, p1: CommandOutput, p2: CommandOutput)
    ensures BuildWmicWmi(Exited(true, stdout), p1) == BuildWmicWmi(Exited(true, stdout), p2)
    ensures BuildWmicWmi(Exited(true, stdout), p1) == ExtractCredentials(stdout)
  {
  }

  /** Discovery succeeds exactly when the chosen output carries both
      patterns. */
  lemma DiscoverySucceedsIff(wmic: CommandOutput, powershell: CommandOutput)
    ensures BuildWmicWmi(wmic, powershell).Ok? <==>
      && QueryOutput(wmic, powershell).Ok?
      && (exists i: nat :: MatchesAt(QueryOutput(wmic, powershell).value, PortFlag, AsciiDigit, i))
      && (exists i: nat :: MatchesAt(QueryOutput(wmic, powershell).value, TokenFlag, WordOrHyphen, i))
  {
  }

  /** A command line that carries both flags, port first, gives back
      exactly the port and the token written into it. */
  lemma ExtractFromCommandLine(port: string, token: string, rest: string)
    requires port != [] && AllInClass(AsciiDigit, port)
    requires token != [] && AllInClass(WordOrHyphen, token)
    requires rest == [] || !InClass(WordOrHyphen, rest[0])
    ensures ExtractCredentials(PortFlag + port + " " + TokenFlag + token + rest)
      == Ok(PortAndToken(port, token))
  {
    var head := PortFlag + port + " ";
    var tail := TokenFlag + token + rest;
    assert PortFlag + port + " " + TokenFlag + token + rest == head + tail;
    PortCapturedFirst(port, tail);
    TokenCapturedAfter(head, token, rest);
  }

  /** The port flag at index 0 is the leftmost match; its run stops at the
      space that follows the digits. */
  lemma PortCapturedFirst(port: string, tail: string)
    requires port != [] && AllInClass(AsciiDigit, port)
    ensures Capture(PortFlag + port + " " + tail, PortFlag, AsciiDigit) == Some(port)
  {
    var s := PortFlag + port + " " + tail;
    var p := |PortFlag| + |port|;
    assert s[..|PortFlag|] == PortFlag;
    assert s[|PortFlag|..p] == port;
    assert s[p] == ' ';
    assert CapturedAt(s, PortFlag, AsciiDigit, 0, port);
    CapturedIsUnique(s, PortFlag, AsciiDigit, 0, port, Capture(s, PortFlag, AsciiDigit));
  }

  /** Behind a head of the form `--app-port=<digits> ` the token flag's
      leftmost match is where the head ends. */
  lemma TokenCapturedAfter(head: string, token: string, rest: string)
    requires |head| > |PortFlag| && head[..|PortFlag|] == PortFlag && head[|head| - 1] == ' '
    requires AllInClass(AsciiDigit, head[|PortFlag|..|head| - 1])
    requires token != [] && AllInClass(WordOrHyphen, token)
    requires rest == [] || !InClass(WordOrHyphen, rest[0])
    ensures Capture(head + TokenFlag + token + rest, TokenFlag, WordOrHyphen) == Some(token)
  {
    var s := head + TokenFlag + token + rest;
    var t := |head|;
    assert s[t..t + |TokenFlag|] == TokenFlag;
    assert s[t + |TokenFlag|..t + |TokenFlag| + |token|] == token;
    assert s[..t] == head;
    forall j: nat | j < t
      ensures !MatchesAt(s, TokenFlag, WordOrHyphen, j)
    {
      NoTokenFlagInHead(s, head, j);
    }
    assert CapturedAt(s, TokenFlag, WordOrHyphen, t, token);
    CapturedIsUnique(s, TokenFlag, WordOrHyphen, t, token, Capture(s, TokenFlag, WordOrHyphen));
  }

  /** The token flag does not start inside a head `--app-port=<digits> `:
      at each index some character of the head differs from it. */
  lemma NoTokenFlagInHead(s: string, head: string, j: nat)
    requires |head| > |PortFlag| && head[..|PortFlag|] == PortFlag && head[|head| - 1] == ' '
    requires AllInClass(AsciiDigit, head[|PortFlag|..|head| - 1])
    requires |head| <= |s| && s[..|head|] == head
    requires j < |head|
    ensures !MatchesAt(s, TokenFlag, WordOrHyphen, j)
  {
    var d: nat;
    if j < |PortFlag| {
      assert head[j] == PortFlag[j];
      if j == 0 {
        d := 2;
        assert head[2] == PortFlag[2];
      } else if PortFlag[j] == '-' {
        d := 1;
        assert head[j + 1] == PortFlag[j + 1];
      } else {
        d := 0;
      }
    } else {
      d := 0;
      if j < |head| - 1 {
        assert head[j] == head[|PortFlag|..|head| - 1][j - |PortFlag|];
      }
    }
    assert head[j + d] != TokenFlag[d];
    assert s[j + d] == s[..|head|][j + d];
    NeedsDashes(s, j, d);
  }

  /** The token flag cannot match where `s` differs from it at offset `d`. */
  lemma NeedsDashes(s: string, j: nat, d: nat)
    requires d < |TokenFlag| && j + d < |s| && s[j + d] != TokenFlag[d]
    ensures !MatchesAt(s, TokenFlag, WordOrHyphen, j)
  {
    if j + |TokenFlag| < |s| {
      assert s[j..j + |TokenFlag|][d] == s[j + d];
    }
  }

  /** A leftmost capture is determined: whatever `Capture` returns is the
      group captured at the leftmost match. */
  lemma CapturedIsUnique(s: string, flag: string, k: CharClass, i: nat, c: string, r: Option<string>)
    requires CapturedAt(s, flag, k, i, c)
    requires forall j :: 0 <= j < i ==> !MatchesAt(s, flag, k, j)
    requires r == Capture(s, flag, k)
    ensures r == Some(c)
  {
    var i': nat, c': string :| CapturedAt(s, flag, k, i', c') && (forall j :: 0 <= j < i' ==> !MatchesAt(s, flag, k, j)) && r == Some(c');
    assert i' == i;
    assert |c'| == |c|;
    assert c' == s[i + |flag|..i + |flag| + |c|];
  }
}
