/**
 * The command language of the primary process: how `Main` routes an input
 * line, and how a stop line is taken apart into a wait flag and pid tokens.
 */
module Commands {
  import opened Wrappers
  import opened Text
  import opened Int32Text

  /** What one input line asks for. */
  datatype Command = Blank | Start | Stop(line: string) | List | Exit | Unrecognized

  /**
   * The exceptions the controller never catches; any of them ends the
   * primary process at once, leaving running children behind.
   */
  datatype Fault =
    | SpawnRefused          // `Process.Start` failed
    | DuplicateId(pid: int) // `IDictionary.Add` met a key that is already there
    | MissingInfoPiece      // the split of a stop line had no piece 0
    | BadPid(token: string) // `GetProcessIdFromString` could not parse a token

  /** The pids of a stop line up to its first bad token, and the fault of that token if there is one. */
  datatype PidList = PidList(pids: seq<int>, failure: Option<Fault>)

  /** A parsed stop line. */
  datatype StopRequest =
    | StopLast(wait: bool)                        // no `=>`: the last enumerated entry
    | StopIds(wait: bool, tokens: seq<string>)    // `stop=>id=>id...`

  const PidDelimiter: string := "=>"
  const WaitFlag: string := "-wait"

  /** `char.IsWhiteSpace`: the Unicode separators and the controls U+0009 to U+000D and U+0085. */
  predicate IsWhiteSpace(c: char)
  {
    || 0x09 <= c as int <= 0x0D || c as int == 0x20 || c as int == 0x85 || c as int == 0xA0
    || c as int == 0x1680 || 0x2000 <= c as int <= 0x200A || c as int == 0x2028
    || c as int == 0x2029 || c as int == 0x202F || c as int == 0x205F || c as int == 0x3000
  }

  /** `string.IsNullOrWhiteSpace`; `None` is the `null` that `Console.ReadLine` returns at end of input. */
  predicate IsNullOrWhiteSpace(input: Option<string>)
  {
    input.None? || forall k :: 0 <= k < |input.value| ==> IsWhiteSpace(input.value[k])
  }

  /** The routing of `Main`: blank lines are skipped, then the line is compared with each command. */
  function Route(input: Option<string>): Command
  {
    if IsNullOrWhiteSpace(input) then Blank
    else
      var line := input.value;
      if line == "start" then Start
      else if IsPrefix("stop", line) then Stop(line)
      else if line == "list" then List
      else if line == "exit" then Exit
      else Unrecognized
  }

  /**
   * `Main` tests the four commands with four separate `if` statements, not
   * an `else if` chain: the commands whose test succeeds on a non-blank line,
   * in the order they are tested.
   */
  function Triggered(line: string): seq<Command>
  {
    (if line == "start" then [Start] else [])
    + (if IsPrefix("stop", line) then [Stop(line)] else [])
    + (if line == "list" then [List] else [])
    + (if line == "exit" then [Exit] else [])
  }

  /** Blank input, and only blank input, is ignored: the first branch of `Route`, unfolded. */
  lemma RouteBlank(input: Option<string>)
    ensures Route(input) == Blank <==> IsNullOrWhiteSpace(input)
  {
  }

  /** `start`, `list` and `exit` are recognised only on exact equality. */
  lemma RouteExact(input: Option<string>)
    ensures Route(input) == Start <==> input == Some("start")
    ensures Route(input) == List <==> input == Some("list")
    ensures Route(input) == Exit <==> input == Some("exit")
  {
    if input == Some("start") { assert !IsWhiteSpace(input.value[0]); }
    if input == Some("list") { assert !IsWhiteSpace(input.value[0]); }
    if input == Some("exit") { assert !IsWhiteSpace(input.value[0]); }
  }

  /** Every line that starts with `stop`, and nothing else, goes to stop handling, with the whole line. */
  lemma RouteStop(input: Option<string>)
    ensures Route(input).Stop? <==> input.Some? && IsPrefix("stop", input.value)
    ensures Route(input).Stop? ==> Route(input).line == input.value
  {
    if input.Some? && IsPrefix("stop", input.value) {
      assert input.value[0] == 's';
      assert !IsWhiteSpace(input.value[0]);
      assert input.value != "start" by { assert input.value[2] == 'o'; }
    }
  }

  /** At most one of the four tests succeeds, so the separate `if`s behave as the routing does. */
  lemma RouteIsIfChain(line: string)
    requires !IsNullOrWhiteSpace(Some(line))
    ensures Triggered(line) == if Route(Some(line)) == Unrecognized then [] else [Route(Some(line))]
  {
    if IsPrefix("stop", line) {
      assert line[0] == 's' && line[3] == 'p';
    }
  }

  /** `HasWait`: the text contains `-wait` somewhere. */
  predicate HasWait(s: string)
  {
    Contains(s, WaitFlag)
  }

  /**
   * `ParseStopProcess` with `ProcessStopCommandForList`: without `=>` the
   * line stops the last entry; otherwise it is split on `=>` with empty
   * pieces dropped; piece 0 gives the wait flag and the others the pid tokens.
   */
  function ParseStop(line: string): Result<StopRequest, Fault>
  {
    if !Contains(line, PidDelimiter) then Ok(StopLast(HasWait(line)))
    else
      var pieces := RemoveEmpty(Split(line, PidDelimiter));
      if pieces == [] then Err(MissingInfoPiece)
      else Ok(StopIds(HasWait(pieces[0]), pieces[1..]))
  }

  /** `GetProcessIdFromString`: trim the space character, then `int.TryParse`. */
  function GetProcessIdFromString(token: string): Result<int, Fault>
  {
    match ParseInt32(Trim(token, {' '}))
    case Some(n) => Ok(n)
    case None => Err(BadPid(token))
  }

  /** The parse of each pid token. */
  function PidResults(tokens: seq<string>): (rs: seq<Result<int, Fault>>)
    ensures |rs| == |tokens|
  {
    if tokens == [] then [] else [GetProcessIdFromString(tokens[0])] + PidResults(tokens[1..])
  }

  /** Result `k` is the parse of token `k`. */
  lemma {:induction false} PidResultsAt(tokens: seq<string>, k: nat)
    requires k < |tokens|
    ensures PidResults(tokens)[k] == GetProcessIdFromString(tokens[k])
  {
    if k > 0 {
      PidResultsAt(tokens[1..], k - 1);
    }
  }

  /** The values before the first failure, in order, and that failure if there is one. */
  function PidsBeforeFailure(rs: seq<Result<int, Fault>>): PidList
  {
    if rs == [] then PidList([], None)
    else if rs[0].Err? then PidList([], Some(rs[0].error))
    else var tail := PidsBeforeFailure(rs[1..]); PidList([rs[0].value] + tail.pids, tail.failure)
  }

  /**
   * The tokens of a stop line taken in order, as the loop over the pieces
   * does: the pids up to the first token that does not parse, and the fault
   * that token raises.
   */
  function ParsePids(tokens: seq<string>): PidList
  {
    PidsBeforeFailure(PidResults(tokens))
  }

  /**
   * A line without `=>` is a single stop of the last entry, whose wait flag
   * is `-wait` anywhere in the line: the first branch of `ParseStop`, unfolded.
   */
  lemma StopWithoutDelimiter(line: string)
    requires !Contains(line, PidDelimiter)
    ensures ParseStop(line) == Ok(StopLast(HasWait(line)))
  {
  }

  /** `stop` never contains `=>`, so a line that starts with it always has a piece 0. */
  lemma StopLineHasInfoPiece(line: string)
    requires IsPrefix("stop", line)
    ensures ParseStop(line).Ok?
  {
    if Contains(line, PidDelimiter) {
      var pieces := Split(line, PidDelimiter);
      var i := IndexOf(line, PidDelimiter).value;
      forall j: nat | j < 4 ensures !OccursAt(line, PidDelimiter, j) {
        assert line[j] == "stop"[j];
        assert "stop"[j] != '=' by { assert j == 0 || j == 1 || j == 2 || j == 3; }
        if j + 2 <= |line| {
          assert line[j..j + 2][0] == line[j];
        }
      }
      assert pieces[0] == line[..i];
      assert pieces[0] != [];
    }
  }

  /** The first occurrence of `=>` in `head + "=>" + rest`, when `head` has none, is right after `head`. */
  lemma DelimiterAfterHead(head: string, rest: string)
    requires !Contains(head, PidDelimiter)
    ensures IndexOf(head + PidDelimiter + rest, PidDelimiter) == Some(|head|)
  {
    var s := head + PidDelimiter + rest;
    assert OccursAt(s, PidDelimiter, |head|) by { assert s[|head|..|head| + 2] == PidDelimiter; }
    forall j: nat | j < |head| ensures !OccursAt(s, PidDelimiter, j) {
      if j + 2 <= |head| {
        assert s[j..j + 2] == head[j..j + 2];
        assert !OccursAt(head, PidDelimiter, j);
      } else {
        assert s[j + 1] == '=';
      }
    }
  }

  /**
   * The wait flag of a pid list comes from the text before the first `=>`
   * alone: a `-wait` among the pid tokens does not set it, and the tokens
   * are the non-empty pieces of the rest.
   */
  lemma WaitScopedToFirstPiece(head: string, rest: string)
    requires head != [] && !Contains(head, PidDelimiter)
    ensures ParseStop(head + PidDelimiter + rest)
         == Ok(StopIds(HasWait(head), RemoveEmpty(Split(rest, PidDelimiter))))
  {
    var line := head + PidDelimiter + rest;
    DelimiterAfterHead(head, rest);
    assert line[..|head|] == head;
    assert line[|head| + 2..] == rest;
    assert Split(line, PidDelimiter) == [head] + Split(rest, PidDelimiter);
    assert Contains(line, PidDelimiter);
    var pieces := [head] + Split(rest, PidDelimiter);
    assert pieces[1..] == Split(rest, PidDelimiter);
  }

  /** A pid token is parsed after trimming spaces: the rendering of a 32-bit integer, padded with spaces, gives it back. */
  lemma PidRoundTrip(n: int, left: nat, right: nat)
    requires IsInt32(n)
    ensures GetProcessIdFromString(Repeat(' ', left) + Render(n) + Repeat(' ', right)) == Ok(n)
  {
    var text := Render(n);
    assert text != [];
    assert text[0] == '-' || IsDigit(text[0]);
    assert IsDigit(text[|text| - 1]);
    TrimSpaces(text, left, right);
    ParseRender(n);
  }

  /** Trimming spaces removes exactly the padding around a text whose ends are not spaces. */
  lemma TrimSpaces(s: string, left: nat, right: nat)
    requires s != [] && s[0] != ' ' && s[|s| - 1] != ' '
    ensures Trim(Repeat(' ', left) + s + Repeat(' ', right), {' '}) == s
  {
    assert Repeat(' ', left) + s + Repeat(' ', right) == Repeat(' ', left) + (s + Repeat(' ', right));
    assert (s + Repeat(' ', right))[0] == s[0];
    TrimStartRepeat(s + Repeat(' ', right), {' '}, ' ', left);
    TrimEndRepeat(s, {' '}, ' ', right);
  }

  /**
   * A token is refused exactly when its space-trimmed text is not a number,
   * and the fault then names the whole token: `GetProcessIdFromString`
   * unfolded; `BadPidOfForeign` below is the property proved from it.
   */
  lemma BadPidIsError(token: string)
    ensures GetProcessIdFromString(token).Err? <==> ParseInt32(Trim(token, {' '})).None?
    ensures GetProcessIdFromString(token).Err? ==> GetProcessIdFromString(token) == Err(BadPid(token))
  {
  }

  /** A token with a foreign character anywhere, such as a letter, is refused with a fault naming it. */
  lemma BadPidOfForeign(token: string, k: nat)
    requires k < |token| && IsForeign(token[k])
    ensures GetProcessIdFromString(token) == Err(BadPid(token))
  {
    TrimKeeps(token, {' '}, k);
    var t := Trim(token, {' '});
    var j :| 0 <= j < |t| && t[j] == token[k];
    ParseRejectsForeign(t, j);
  }

  /** The plain rendering of a 32-bit integer is a valid pid token for it. */
  lemma PidOfRender(n: int)
    requires IsInt32(n)
    ensures GetProcessIdFromString(Render(n)) == Ok(n)
  {
    PidRoundTrip(n, 0, 0);
    assert Repeat(' ', 0) + Render(n) + Repeat(' ', 0) == Render(n);
  }

  /** Results that all succeed give their values, in order, and no failure. */
  lemma {:induction false} AllOkBeforeFailure(rs: seq<Result<int, Fault>>, ns: seq<int>)
    requires |rs| == |ns|
    requires forall k :: 0 <= k < |ns| ==> rs[k] == Ok(ns[k])
    ensures PidsBeforeFailure(rs) == PidList(ns, None)
  {
    if rs != [] {
      AllOkBeforeFailure(rs[1..], ns[1..]);
      assert ns == [ns[0]] + ns[1..];
    }
  }

  /** One more success after a prefix without failure adds its value at the end. */
  lemma {:induction false} OkAfterPrefix(good: seq<Result<int, Fault>>, n: int)
    requires PidsBeforeFailure(good).failure == None
    ensures PidsBeforeFailure(good + [Ok(n)]) == PidList(PidsBeforeFailure(good).pids + [n], None)
  {
    var rs := good + [Ok(n)];
    if good == [] {
      assert rs[1..] == [];
    } else {
      assert rs[0] == good[0];
      assert rs[1..] == good[1..] + [Ok(n)];
      OkAfterPrefix(good[1..], n);
    }
  }

  /** The first failure ends the parse: the values before it are kept, nothing after it is looked at. */
  lemma {:induction false} FailureEndsParse(good: seq<Result<int, Fault>>, bad: Result<int, Fault>, rest: seq<Result<int, Fault>>)
    requires PidsBeforeFailure(good).failure == None
    requires bad.Err?
    ensures PidsBeforeFailure(good + [bad] + rest) == PidList(PidsBeforeFailure(good).pids, Some(bad.error))
  {
    var rs := good + [bad] + rest;
    if good == [] {
      assert rs[0] == bad;
    } else {
      assert rs[0] == good[0];
      assert rs[1..] == good[1..] + [bad] + rest;
      FailureEndsParse(good[1..], bad, rest);
    }
  }

  /**
   * What `PidsBeforeFailure` computes: the values of the leading successes,
   * in order, then either the first failure, which directly follows them,
   * or no failure when every result succeeds.
   */
  lemma {:induction false} PidsBeforeFailureSpec(rs: seq<Result<int, Fault>>)
    ensures var r := PidsBeforeFailure(rs);
            && |r.pids| <= |rs|
            && (forall j :: 0 <= j < |r.pids| ==> rs[j] == Ok(r.pids[j]))
            && (r.failure.None? <==> |r.pids| == |rs|)
            && (r.failure.Some? ==> rs[|r.pids|] == Err(r.failure.value))
  {
    if rs != [] && rs[0].Ok? {
      PidsBeforeFailureSpec(rs[1..]);
      var tail := PidsBeforeFailure(rs[1..]);
      forall j | 0 <= j < |tail.pids| + 1 ensures rs[j] == Ok(([rs[0].value] + tail.pids)[j]) {
        if j > 0 { assert rs[j] == rs[1..][j - 1]; }
      }
    }
  }

  /**
   * A stop list fails exactly at its first token that is not a pid, and the
   * fault names that token; the pids before it are those tokens' values.
   */
  lemma ParsePidsSpec(tokens: seq<string>)
    ensures var r := ParsePids(tokens);
            && |r.pids| <= |tokens|
            && (forall j :: 0 <= j < |r.pids| ==> GetProcessIdFromString(tokens[j]) == Ok(r.pids[j]))
            && (r.failure.None? <==> |r.pids| == |tokens|)
            && (r.failure.Some? ==> r.failure == Some(BadPid(tokens[|r.pids|])))
  {
    var rs := PidResults(tokens);
    PidsBeforeFailureSpec(rs);
    var r := PidsBeforeFailure(rs);
    forall j | 0 <= j < |r.pids| ensures GetProcessIdFromString(tokens[j]) == Ok(r.pids[j]) {
      PidResultsAt(tokens, j);
    }
    if r.failure.Some? {
      PidResultsAt(tokens, |r.pids|);
    }
  }

  /** Tokens that are all pids give their values, in order, and no failure. */
  lemma ParsePidsAllOk(tokens: seq<string>, pids: seq<int>)
    requires |pids| == |tokens|
    requires forall j :: 0 <= j < |tokens| ==> GetProcessIdFromString(tokens[j]) == Ok(pids[j])
    ensures ParsePids(tokens) == PidList(pids, None)
  {
    var rs := PidResults(tokens);
    forall j | 0 <= j < |tokens| ensures rs[j] == Ok(pids[j]) {
      PidResultsAt(tokens, j);
    }
    AllOkBeforeFailure(rs, pids);
  }

  /** Pids followed by a token that is not one give those pids and the fault of that token. */
  lemma ParsePidsFailAt(tokens: seq<string>, pids: seq<int>)
    requires |pids| < |tokens| && GetProcessIdFromString(tokens[|pids|]).Err?
    requires forall j :: 0 <= j < |pids| ==> GetProcessIdFromString(tokens[j]) == Ok(pids[j])
    ensures ParsePids(tokens) == PidList(pids, Some(GetProcessIdFromString(tokens[|pids|]).error))
  {
    var rs := PidResults(tokens);
    forall j | 0 <= j < |pids| ensures rs[j] == Ok(pids[j]) {
      PidResultsAt(tokens, j);
    }
    PidResultsAt(tokens, |pids|);
    FirstFailure(rs, pids);
  }

  /** Results that succeed up to a failure give the values before it and that failure. */
  lemma FirstFailure(rs: seq<Result<int, Fault>>, pids: seq<int>)
    requires |pids| < |rs| && rs[|pids|].Err?
    requires forall j :: 0 <= j < |pids| ==> rs[j] == Ok(pids[j])
    ensures PidsBeforeFailure(rs) == PidList(pids, Some(rs[|pids|].error))
  {
    var n := |pids|;
    AllOkBeforeFailure(rs[..n], pids);
    FailureEndsParse(rs[..n], rs[n], rs[n + 1..]);
    assert rs == rs[..n] + [rs[n]] + rs[n + 1..];
  }

  /** The renderings of 32-bit integers parse back to those integers, all of them, in order. */
  lemma ParsePidsRendered(ns: seq<int>)
    requires forall k :: 0 <= k < |ns| ==> IsInt32(ns[k])
    ensures ParsePids(RenderAll(ns)) == PidList(ns, None)
  {
    var rs := PidResults(RenderAll(ns));
    forall k | 0 <= k < |ns| ensures rs[k] == Ok(ns[k]) {
      PidResultsAt(RenderAll(ns), k);
      PidOfRender(ns[k]);
    }
    AllOkBeforeFailure(rs, ns);
  }

  function RenderAll(ns: seq<int>): (r: seq<string>)
    ensures |r| == |ns| && forall k :: 0 <= k < |ns| ==> r[k] == Render(ns[k])
  {
    if ns == [] then [] else [Render(ns[0])] + RenderAll(ns[1..])
  }
}
