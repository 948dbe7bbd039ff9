/** The bookkeeping around one running `docker buildx build`
    (`buildComponent`, lib/node/builder/builder.ts:200-213 and 300-402): the
    classification of its output lines with the `inErrorSection` flag, the
    early "exporting cache to registry" completion, the once-only
    `finishProc` and `tryResolve` guards, and the section headers that the
    module-level `currentOutputOwner` decides. Clock readings (`elapsed()`,
    the duration) are parameters; colours are left out. */
module Process {
  import opened Wrappers
  import opened Text

  // ---------------------------------------------------------------------------
  // parseInt
  // ---------------------------------------------------------------------------

  predicate IsHexDigit(c: char) {
    IsDigit(c) || 'a' <= c <= 'f' || 'A' <= c <= 'F'
  }

  /** The longest prefix of `s` whose characters all satisfy `ok`. */
  function LongestPrefix(s: string, ok: char -> bool): (r: string)
    ensures r <= s
    ensures forall i :: 0 <= i < |r| ==> ok(r[i])
    ensures |r| < |s| ==> !ok(s[|r|])
  {
    if s != [] && ok(s[0]) then [s[0]] + LongestPrefix(s[1..], ok) else []
  }

  function HexDigitValue(c: char): (r: nat)
    requires IsHexDigit(c)
    ensures r < 16
    ensures IsDigit(c) ==> r < 10
  {
    if IsDigit(c) then c as int - '0' as int
    else if 'a' <= c <= 'f' then c as int - 'a' as int + 10
    else c as int - 'A' as int + 10
  }

  /** The value of the digit string `ds` in base `base`. */
  function DigitsValue(ds: string, base: nat): nat
    requires forall i :: 0 <= i < |ds| ==> IsHexDigit(ds[i])
    decreases |ds|
  {
    if ds == [] then 0
    else
      assert forall i :: 0 <= i < |ds| - 1 ==> ds[..|ds| - 1][i] == ds[i];
      DigitsValue(ds[..|ds| - 1], base) * base + HexDigitValue(ds[|ds| - 1])
  }

  /** The number after the sign: hexadecimal digits after `0x` or `0X`, or
      else decimal digits, as far as they go; `None` when there is none. */
  function Unsigned(u: string): Option<nat> {
    var hex := |u| >= 2 && u[0] == '0' && (u[1] == 'x' || u[1] == 'X');
    var ds := if hex then LongestPrefix(u[2..], IsHexDigit) else LongestPrefix(u, IsDigit);
    if ds == [] then None else Some(DigitsValue(ds, if hex then 16 else 10))
  }

  /** `parseInt(s)` with no radix: leading white space, an optional sign, then
      the number. `None` stands for `NaN`, when there is no digit at all. */
  function ParseInt(s: string): (r: Option<int>)
  {
    var t := TrimStart(s);
    if t != [] && (t[0] == '-' || t[0] == '+') then
      match Unsigned(t[1..])
      case None => None
      case Some(n) =>
        var v: int := n;
        Some(if t[0] == '-' then -v else v)
    else
      match Unsigned(t)
      case None => None
      case Some(n) => Some(n)
  }

  /** `parseInt(s) >= 0`, which is false for `NaN`. */
  predicate ParsesNonNegative(s: string) {
    var r := ParseInt(s);
    r.Some? && r.value >= 0
  }

  /** `s.charAt(i)` */
  function CharAt(s: string, i: nat): (r: string)
    ensures |r| <= 1
  {
    if i < |s| then [s[i]] else ""
  }

  /** A one-character string parses to a non-negative number exactly when
      that character is a decimal digit. */
  lemma SingleCharParse(c: char)
    ensures ParsesNonNegative([c]) <==> IsDigit(c)
  {
    if IsSpace(c) {
      assert TrimStart([c]) == TrimStart([c][1..]);
    } else {
      assert TrimStart([c]) == [c];
      if c != '-' && c != '+' && IsDigit(c) {
        assert LongestPrefix([c], IsDigit) == [c] + LongestPrefix([], IsDigit);
        assert DigitsValue([c], 10) == DigitsValue([], 10) * 10 + HexDigitValue(c);
      }
    }
  }

  lemma {:induction false} LongestPrefixAppend(a: string, b: string, ok: char -> bool)
    requires forall i :: 0 <= i < |a| ==> ok(a[i])
    requires b == [] || !ok(b[0])
    ensures LongestPrefix(a + b, ok) == a
    decreases |a|
  {
    if a != [] {
      assert (a + b)[1..] == a[1..] + b;
      LongestPrefixAppend(a[1..], b, ok);
    } else {
      assert a + b == b;
    }
  }

  lemma {:induction false} NatToStringValue(n: nat)
    ensures forall i :: 0 <= i < |NatToString(n)| ==> IsHexDigit(NatToString(n)[i])
    ensures DigitsValue(NatToString(n), 10) == n
  {
    var s := NatToString(n);
    if n >= 10 {
      NatToStringValue(n / 10);
      assert s[..|s| - 1] == NatToString(n / 10);
    }
  }

  /** A string that starts with a decimal digit, and not with `0x`, parses
      to the value of its leading digits. */
  lemma ParseUnsigned(s: string)
    requires s != [] && IsDigit(s[0])
    requires |s| < 2 || (s[1] != 'x' && s[1] != 'X')
    ensures var ds := LongestPrefix(s, IsDigit);
      ds != [] && ParseInt(s) == Some(DigitsValue(ds, 10))
  {
    assert !IsSpace(s[0]);
    assert TrimStart(s) == s;
    assert s[0] != '-' && s[0] != '+';
    assert LongestPrefix(s, IsDigit) != [];
    assert Unsigned(s) == Some(DigitsValue(LongestPrefix(s, IsDigit), 10));
  }

  /** The decimal form of `n`, followed by anything that does not continue a
      number, parses back to `n`: a step token such as `12]` counts. */
  lemma ParseIntOfNat(n: nat, rest: string)
    requires rest == [] || (!IsDigit(rest[0]) && rest[0] != 'x' && rest[0] != 'X')
    ensures ParseInt(NatToString(n) + rest) == Some(n)
  {
    var d := NatToString(n);
    var s := d + rest;
    assert s[0] == d[0];
    assert |s| >= 2 ==> s[1] == (if |d| >= 2 then d[1] else rest[0]);
    ParseUnsigned(s);
    LongestPrefixAppend(d, rest, IsDigit);
    NatToStringValue(n);
  }

  // ---------------------------------------------------------------------------
  // Line classification (`handleLine`)
  // ---------------------------------------------------------------------------

  /** `'exporting cache to registry'` within the first 40 characters, starting
      before position 10: the build is complete once its cache export begins. */
  predicate IsCacheExportMarker(line: string) {
    var at := IndexOf(Prefix(line, 40), "exporting cache to registry");
    0 <= at < 10
  }

  /** `isStepsLine`: a second token of the form `[<digit>…`, or a third token
      ending in `]` that, slashes removed, parses to a non-negative number. */
  predicate IsStepsLine(lit: seq<string>) {
    || (|lit| > 1 && lit[1] != "" && lit[1][0] == '[' && ParsesNonNegative(CharAt(lit[1], 1)))
    || (|lit| > 2 && lit[2] != "" && EndsWith(lit[2], "]") && ParsesNonNegative(RemoveChar(lit[2], '/')))
  }

  lemma {:induction false} RemoveAbsentChar(s: string, c: char)
    requires c !in s
    ensures RemoveChar(s, c) == s
  {
    if s != [] {
      assert s == [s[0]] + s[1..];
      RemoveAbsentChar(s[1..], c);
    }
  }

  /** A bracketed step counter as second token, as in `#5 [2/3] RUN make`,
      makes a steps line. */
  lemma BracketedStep(lit: seq<string>)
    requires |lit| > 1 && |lit[1]| > 1 && lit[1][0] == '[' && IsDigit(lit[1][1])
    ensures IsStepsLine(lit)
  {
    assert CharAt(lit[1], 1) == [lit[1][1]];
    SingleCharParse(lit[1][1]);
  }

  /** So does a third token made of a number and `]`, as the `3]` of
      `#5 [stage-1 3] RUN make`. */
  lemma NumberedStep(lit: seq<string>, n: nat)
    requires |lit| > 2 && lit[2] == NatToString(n) + "]"
    ensures IsStepsLine(lit)
  {
    var d := NatToString(n);
    assert '/' !in d;
    assert '/' !in lit[2] by {
      assert forall i :: 0 <= i < |lit[2]| ==> lit[2][i] == if i < |d| then d[i] else ']';
    }
    RemoveAbsentChar(lit[2], '/');
    ParseIntOfNat(n, "]");
  }

  predicate IsCachedLine(lit: seq<string>) {
    |lit| > 1 && lit[1] == "CACHED"
  }

  /** `isErrorLine`: the first or the second token is `ERROR:`. */
  predicate IsErrorLine(lit: seq<string>) {
    (|lit| > 0 && lit[0] == "ERROR:") || (|lit| > 1 && lit[1] == "ERROR:")
  }

  /** `isAppErrorLine`: `error:`, in any case, starting before position 10. */
  predicate IsAppErrorLine(line: string) {
    var pos := IndexOf(Lower(line), "error:");
    0 <= pos < 10
  }

  /** `shouldIgnore` */
  predicate ShouldIgnore(line: string) {
    Contains(line, " registry cache ")
  }

  /** A line starting with `#` closes an error section. */
  predicate ClearsSection(line: string) {
    line != [] && line[0] == '#'
  }

  /** What `handleLine` does with a line. */
  datatype LineKind = CacheExport | Cached | Steps | ErrorToggle | InErrorSection | AppError | Unechoed
  {
    predicate Echoed() {
      this != CacheExport && this != Unechoed
    }

    predicate EchoedAsError() {
      this == ErrorToggle || this == InErrorSection || this == AppError
    }
  }

  function Classify(line: string, inErrorSection: bool): LineKind {
    var lit := Tokens(line);
    if IsCacheExportMarker(line) then CacheExport
    else if IsCachedLine(lit) then Cached
    else if IsStepsLine(lit) then Steps
    else if IsErrorLine(lit) && !ShouldIgnore(line) then ErrorToggle
    else if inErrorSection && !ClearsSection(line) then InErrorSection
    else if IsAppErrorLine(line) && !ShouldIgnore(line) then AppError
    else Unechoed
  }

  /** The `inErrorSection` flag after a line. */
  function SectionAfter(line: string, inErrorSection: bool): bool {
    if IsCacheExportMarker(line) then inErrorSection
    else
      var open := inErrorSection && !ClearsSection(line);
      if Classify(line, inErrorSection) == ErrorToggle then !open else open
  }

  /** A line is echoed as an error exactly when it is not the cache-export
      marker, a `CACHED` line or a steps line, and it is an `ERROR:` line or an
      application error line that is not about the registry cache, or it comes
      inside an error section that it does not close. */
  lemma ErrorEchoExactly(line: string, inErrorSection: bool)
    ensures var lit := Tokens(line);
      Classify(line, inErrorSection).EchoedAsError() <==>
        && !IsCacheExportMarker(line) && !IsCachedLine(lit) && !IsStepsLine(lit)
        && ((IsErrorLine(lit) && !ShouldIgnore(line))
            || (inErrorSection && !ClearsSection(line))
            || (IsAppErrorLine(line) && !ShouldIgnore(line)))
  {
  }

  /** An `ERROR:` line not about the registry cache flips the section flag
      (after a leading `#` has closed the section). */
  lemma ErrorLineToggles(line: string, inErrorSection: bool)
    requires var lit := Tokens(line);
      !IsCacheExportMarker(line) && !IsCachedLine(lit) && !IsStepsLine(lit)
      && IsErrorLine(lit) && !ShouldIgnore(line)
    ensures Classify(line, inErrorSection) == ErrorToggle
    ensures SectionAfter(line, inErrorSection) == !(inErrorSection && !ClearsSection(line))
  {
  }

  /** The flag changes only when a `#` line closes the section or an
      `ERROR:` line flips it. */
  lemma SectionChanges(line: string, inErrorSection: bool)
    ensures SectionAfter(line, inErrorSection) != inErrorSection ==>
      (inErrorSection && ClearsSection(line)) || Classify(line, inErrorSection) == ErrorToggle
  {
  }

  /** A `#` line that is not an `ERROR:` line leaves no error section open,
      unless it is the cache-export marker, which returns before the flag is
      touched. */
  lemma HashLineCloses(line: string, inErrorSection: bool)
    requires ClearsSection(line) && !IsCacheExportMarker(line)
    requires Classify(line, inErrorSection) != ErrorToggle
    ensures !SectionAfter(line, inErrorSection)
  {
  }

  /** A line about the registry cache is never an error outside a section. */
  lemma RegistryCacheLinesAreNoErrors(line: string, inErrorSection: bool)
    requires ShouldIgnore(line)
    requires !inErrorSection || ClearsSection(line)
    ensures !Classify(line, inErrorSection).EchoedAsError()
  {
  }

  // ---------------------------------------------------------------------------
  // Completion (`finishProc`, `tryResolve`)
  // ---------------------------------------------------------------------------

  /** An entry of the shared `errors` list. */
  datatype Failure = Failure(file: string, message: string)

  /** What a build knows about its component. */
  datatype Proc = Proc(name: string, fullname: string, nameSafe: string, dockerfile: string, images: seq<string>)

  /** `build.${name_safe}.log` */
  function StreamFile(p: Proc): string {
    "build." + p.nameSafe + ".log"
  }

  /** The error a failed build adds: the Dockerfile and a pointer to its log. */
  function FailureOf(p: Proc): (f: Failure)
    ensures f.file == p.dockerfile
  {
    Failure(p.dockerfile, "ERROR; docker build failed for component '" + p.name + "'\n(more info at "
      + StreamFile(p) + ":1:1):\n")
  }

  /** The flags and outcome of one build. */
  datatype Run = Run(inErrorSection: bool, finished: bool, resolved: bool, result: Option<bool>, failures: seq<Failure>)

  const Fresh := Run(false, false, false, None, [])

  /** `tryResolve(v)` */
  function Resolve(s: Run, v: bool): Run {
    if s.resolved then s else s.(resolved := true, result := Some(v))
  }

  /** `finishProc(code)`: on the first call only, success is an exit code of 0
      (a `null` code, for a signal, is `None`); a failure adds its error. */
  function Finish(s: Run, code: Option<nat>, p: Proc): Run {
    if s.finished then s
    else
      var ok := code == Some(0);
      Resolve(s.(finished := true, failures := s.failures + if ok then [] else [FailureOf(p)]), ok)
  }

  /** `handleLine` on the state. */
  function AfterLine(s: Run, line: string, p: Proc): Run {
    if IsCacheExportMarker(line) then Finish(s, Some(0), p)
    else s.(inErrorSection := SectionAfter(line, s.inErrorSection))
  }

  /** The state after the output lines, in the order they arrive. */
  function Feed(s: Run, lines: seq<string>, p: Proc): Run
    decreases |lines|
  {
    if lines == [] then s else AfterLine(Feed(s, lines[..|lines| - 1], p), lines[|lines| - 1], p)
  }

  /** The state once the process has closed with `code` after `lines`. */
  function Outcome(lines: seq<string>, code: Option<nat>, p: Proc): Run {
    Finish(Feed(Fresh, lines, p), code, p)
  }

  predicate HasMarker(lines: seq<string>) {
    exists i :: 0 <= i < |lines| && IsCacheExportMarker(lines[i])
  }

  /** The promise is resolved at most once: a second `tryResolve` changes nothing. */
  lemma ResolveOnce(s: Run, v: bool, w: bool)
    ensures Resolve(Resolve(s, v), w) == Resolve(s, v)
    ensures Resolve(s, v).result == if s.resolved then s.result else Some(v)
  {
  }

  /** `finishProc` acts on its first call only. */
  lemma FinishOnce(s: Run, c1: Option<nat>, c2: Option<nat>, p: Proc)
    ensures Finish(Finish(s, c1, p), c2, p) == Finish(s, c1, p)
  {
  }

  /** A first `finishProc` on a fresh promise succeeds exactly for exit code 0
      and adds exactly one error otherwise. */
  lemma FinishOutcome(s: Run, code: Option<nat>, p: Proc)
    requires !s.finished && !s.resolved
    ensures Finish(s, code, p).result == Some(code == Some(0))
    ensures Finish(s, code, p).failures == s.failures + if code == Some(0) then [] else [FailureOf(p)]
  {
  }

  lemma HasMarkerSnoc(lines: seq<string>)
    requires lines != []
    ensures HasMarker(lines) <==> HasMarker(lines[..|lines| - 1]) || IsCacheExportMarker(lines[|lines| - 1])
  {
    var init := lines[..|lines| - 1];
    if HasMarker(lines) && !IsCacheExportMarker(lines[|lines| - 1]) {
      var i :| 0 <= i < |lines| && IsCacheExportMarker(lines[i]);
      assert init[i] == lines[i];
    }
    if HasMarker(init) {
      var i :| 0 <= i < |init| && IsCacheExportMarker(init[i]);
      assert lines[i] == init[i];
    }
  }

  /** Before the process closes, a build has finished, successfully and
      without an error, exactly when a cache-export marker came by. */
  lemma {:induction false} FeedFacts(lines: seq<string>, p: Proc)
    ensures var s := Feed(Fresh, lines, p);
      && s.finished == HasMarker(lines) && s.resolved == HasMarker(lines)
      && s.result == (if HasMarker(lines) then Some(true) else None)
      && s.failures == []
    decreases |lines|
  {
    if lines != [] {
      FeedFacts(lines[..|lines| - 1], p);
      HasMarkerSnoc(lines);
    }
  }

  /** A build succeeds exactly when the cache-export marker came by or the
      process exited with code 0; the `close` after the marker is a no-op.
      A failed build adds exactly one error, a successful one none. */
  lemma BuildOutcome(lines: seq<string>, code: Option<nat>, p: Proc)
    ensures Outcome(lines, code, p).result == Some(HasMarker(lines) || code == Some(0))
    ensures Outcome(lines, code, p).failures == if HasMarker(lines) || code == Some(0) then [] else [FailureOf(p)]
  {
    FeedFacts(lines, p);
  }

  // ---------------------------------------------------------------------------
  // Output sections (`currentOutputOwner`, `rectifyOutputSection`)
  // ---------------------------------------------------------------------------

  const HeaderWidth := 80

  function Dashes(n: nat): (r: string)
    ensures |r| == n && forall i :: 0 <= i < n ==> r[i] == '-'
  {
    seq(n, _ => '-')
  }

  /** `procHeaderBase`, padded with `-` to 80 characters. */
  function Header(fullname: string): string {
    var base := "--------- " + fullname + " ----------------------";
    if |base| < HeaderWidth then base + Dashes(HeaderWidth - |base|) else base
  }

  /** The header is at least 80 characters long, names the component after
      ten characters, and holds only dashes after the space that follows the
      name. */
  lemma HeaderShape(fullname: string)
    ensures var h := Header(fullname);
      && |h| >= HeaderWidth && |h| > 10 + |fullname| + 1
      && h[..10] == "--------- " && h[10..10 + |fullname|] == fullname
      && h[10 + |fullname|] == ' '
      && forall i :: 10 + |fullname| < i < |h| ==> h[i] == '-'
  {
    var base := "--------- " + fullname + " ----------------------";
    var h := Header(fullname);
    assert h[..|base|] == base;
    assert forall i :: 10 + |fullname| < i < |base| ==> base[i] == '-';
  }

  /** Different components have different headers. */
  lemma HeaderInjective(a: string, b: string)
    requires Header(a) == Header(b)
    ensures a == b
  {
    HeaderShape(a);
    HeaderShape(b);
  }

  /** `rectifyOutputSection`: a blank line and the header when the owner changes. */
  function SectionSwitch(owner: string, header: string): seq<string> {
    if owner != header then ["", header] else []
  }

  /** Output from a different component always starts a new section. */
  lemma NewOwnerPrintsHeader(a: string, b: string)
    requires a != b
    ensures SectionSwitch(Header(a), Header(b)) == ["", Header(b)]
  {
    if Header(a) == Header(b) {
      HeaderInjective(a, b);
    }
  }

  /** `echoLine(line, isError)`; the clock reading is `stamp`. */
  function EchoText(stamp: string, line: string, isError: bool): string {
    if isError then stamp + "      " + line + "    " else stamp + "      " + line
  }

  /** The lines `options.log` prints for one echo. */
  function Echoed(owner: string, header: string, text: string): seq<string> {
    SectionSwitch(owner, header) + [text]
  }

  function FinishMessage(p: Proc, code: Option<nat>, dur: string): string {
    if code == Some(0) then "FINISHED '" + p.fullname + "' (" + dur + "s)"
    else "FAILED '" + p.fullname + "' (" + dur + "s), exitcode=" + (if code.Some? then NatToString(code.value) else "null")
  }

  function Indented(images: seq<string>): seq<string> {
    seq(|images|, i requires 0 <= i < |images| => "    " + images[i])
  }

  /** `images.join('\n')`, which is empty for no images. */
  function JoinLines(parts: seq<string>): string {
    if parts == [] then "" else Join(parts, '\n')
  }

  /** `announcePushes` */
  function Announcement(p: Proc): string {
    "Successfully published " + p.fullname + " to:\n" + JoinLines(Indented(p.images)) + "\n"
  }

  /** What `finishProc` prints: nothing on a second call. */
  function FinishLog(owner: string, s: Run, p: Proc, code: Option<nat>, stamp: string, dur: string): seq<string> {
    if s.finished then []
    else
      var echoed := Echoed(owner, Header(p.fullname), EchoText(stamp, FinishMessage(p, code, dur), false));
      echoed + if code == Some(0) then [Announcement(p)] else []
  }

  /** What `handleLine` prints. */
  function LineLog(owner: string, s: Run, line: string, p: Proc, stamp: string, dur: string): seq<string> {
    if IsCacheExportMarker(line) then FinishLog(owner, s, p, Some(0), stamp, dur)
    else
      var k := Classify(line, s.inErrorSection);
      if k.Echoed() then Echoed(owner, Header(p.fullname), EchoText(stamp, line, k.EchoedAsError())) else []
  }

  /** The console owner after `handleLine`: the build's header once the
      line is echoed or finishes the build, else the owner before. */
  function LineOwner(owner: string, s: Run, line: string, p: Proc): string {
    if IsCacheExportMarker(line) then (if s.finished then owner else Header(p.fullname))
    else if Classify(line, s.inErrorSection).Echoed() then Header(p.fullname)
    else owner
  }

  /** The console owner at the end, and what was printed. */
  datatype Console = Console(owner: string, printed: seq<string>)

  /** What a build prints for its output `lines`, arriving at the clock
      readings `stamps`, on a console last owned by `owner`. */
  function FeedConsole(owner: string, lines: seq<string>, stamps: seq<string>, p: Proc, dur: string): Console
    requires |stamps| == |lines|
    decreases |lines|
  {
    if lines == [] then Console(owner, [])
    else
      var n := |lines| - 1;
      var c := FeedConsole(owner, lines[..n], stamps[..n], p, dur);
      var s := Feed(Fresh, lines[..n], p);
      Console(LineOwner(c.owner, s, lines[n], p), c.printed + LineLog(c.owner, s, lines[n], p, stamps[n], dur))
  }

  lemma FeedConsoleStep(owner: string, lines: seq<string>, stamps: seq<string>, p: Proc, dur: string, i: nat)
    requires |stamps| == |lines| && i < |lines|
    ensures var c := FeedConsole(owner, lines[..i], stamps[..i], p, dur);
      var s := Feed(Fresh, lines[..i], p);
      FeedConsole(owner, lines[..i + 1], stamps[..i + 1], p, dur) ==
        Console(LineOwner(c.owner, s, lines[i], p), c.printed + LineLog(c.owner, s, lines[i], p, stamps[i], dur))
  {
    assert lines[..i + 1][..i] == lines[..i];
    assert stamps[..i + 1][..i] == stamps[..i];
  }

  lemma FeedStep(lines: seq<string>, p: Proc, i: nat)
    requires i < |lines|
    ensures Feed(Fresh, lines[..i + 1], p) == AfterLine(Feed(Fresh, lines[..i], p), lines[i], p)
  {
    assert lines[..i + 1][..i] == lines[..i];
  }

  /** One more line: the console after `handleLine` is the fold one line further. */
  lemma ConsoleAfterLine(owner0: string, printed0: seq<string>, lines: seq<string>, stamps: seq<string>, p: Proc,
                         dur: string, i: nat, before: Console, state: Run, owner: string, printed: seq<string>)
    requires |stamps| == |lines| && i < |lines|
    requires before == FeedConsole(owner0, lines[..i], stamps[..i], p, dur) && state == Feed(Fresh, lines[..i], p)
    requires owner == LineOwner(before.owner, state, lines[i], p)
    requires printed == printed0 + before.printed + LineLog(before.owner, state, lines[i], p, stamps[i], dur)
    ensures owner == FeedConsole(owner0, lines[..i + 1], stamps[..i + 1], p, dur).owner
    ensures printed == printed0 + FeedConsole(owner0, lines[..i + 1], stamps[..i + 1], p, dur).printed
  {
    var next := FeedConsole(owner0, lines[..i + 1], stamps[..i + 1], p, dur);
    assert next == Console(LineOwner(before.owner, state, lines[i], p), before.printed + LineLog(before.owner, state, lines[i], p, stamps[i], dur)) by {
      FeedConsoleStep(owner0, lines, stamps, p, dur, i);
    }
    AppendAssoc(printed0, before.printed, LineLog(before.owner, state, lines[i], p, stamps[i], dur));
  }

  lemma AppendAssoc(a: seq<string>, b: seq<string>, c: seq<string>)
    ensures a + b + c == a + (b + c)
  {
  }

  /** Once a build has finished, the console belongs to it: the marker
      printed its header, and every later line either prints under the same
      header or prints nothing. */
  lemma {:induction false} FinishedOwnsConsole(owner: string, lines: seq<string>, stamps: seq<string>, p: Proc, dur: string)
    requires |stamps| == |lines|
    ensures Feed(Fresh, lines, p).finished ==> FeedConsole(owner, lines, stamps, p, dur).owner == Header(p.fullname)
    decreases |lines|
  {
    if lines != [] {
      var n := |lines| - 1;
      FinishedOwnsConsole(owner, lines[..n], stamps[..n], p, dur);
    }
  }

  /** The console, shared by every build of a run. */
  class OutputMux {
    /** `currentOutputOwner` */
    var owner: string
    /** Everything `options.log` printed, in order. */
    var lines: seq<string>

    constructor ()
      ensures owner == "" && lines == []
    {
      owner := "";
      lines := [];
    }

    method Rectify(header: string)
      modifies this
      ensures owner == header && lines == old(lines) + SectionSwitch(old(owner), header)
    {
      if owner != header {
        owner := header;
        lines := lines + ["", header];
      }
    }

    method Log(text: string)
      modifies this
      ensures owner == old(owner) && lines == old(lines) + [text]
    {
      lines := lines + [text];
    }

    /** Rectify the section, then log. */
    method Echo(header: string, text: string)
      modifies this
      ensures owner == header && lines == old(lines) + Echoed(old(owner), header, text)
    {
      Rectify(header);
      Log(text);
    }
  }

  /** The closures of one docker build and the flags they share. */
  class BuildRun {
    const proc: Proc
    const mux: OutputMux
    var inErrorSection: bool
    var alreadyFinished: bool
    var resolved: bool
    var result: Option<bool>
    var failures: seq<Failure>

    function State(): Run
      reads this
    {
      Run(inErrorSection, alreadyFinished, resolved, result, failures)
    }

    constructor (proc: Proc, mux: OutputMux)
      ensures this.proc == proc && this.mux == mux && State() == Fresh
    {
      this.proc := proc;
      this.mux := mux;
      inErrorSection, alreadyFinished, resolved, result, failures := false, false, false, None, [];
    }

    method TryResolve(v: bool)
      modifies this
      ensures State() == Resolve(old(State()), v)
    {
      if !resolved {
        resolved := true;
        result := Some(v);
      }
    }

    method FinishProc(code: Option<nat>, stamp: string, dur: string)
      modifies this, mux
      ensures State() == Finish(old(State()), code, proc)
      ensures mux.lines == old(mux.lines) + FinishLog(old(mux.owner), old(State()), proc, code, stamp, dur)
      ensures mux.owner == if old(alreadyFinished) then old(mux.owner) else Header(proc.fullname)
    {
      if alreadyFinished {
        return;
      }
      alreadyFinished := true;
      var ok := code == Some(0);
      var header := Header(proc.fullname);
      mux.Echo(header, EchoText(stamp, FinishMessage(proc, code, dur), false));
      if !ok {
        failures := failures + [FailureOf(proc)];
      } else {
        mux.Echo(header, Announcement(proc));
      }
      TryResolve(ok);
    }

    method HandleLine(line: string, stamp: string, dur: string)
      modifies this, mux
      ensures State() == AfterLine(old(State()), line, proc)
      ensures mux.lines == old(mux.lines) + LineLog(old(mux.owner), old(State()), line, proc, stamp, dur)
      ensures mux.owner == LineOwner(old(mux.owner), old(State()), line, proc)
    {
      if IsCacheExportMarker(line) {
        FinishProc(Some(0), stamp, dur);
      } else {
        Track(line, stamp);
      }
    }

    /** `handleLine` for a line that is not the cache-export marker. */
    method Track(line: string, stamp: string)
      requires !IsCacheExportMarker(line)
      modifies this, mux
      ensures State() == old(State()).(inErrorSection := SectionAfter(line, old(inErrorSection)))
      ensures var kind := Classify(line, old(inErrorSection));
        mux.lines == old(mux.lines) + if kind.Echoed() then Echoed(old(mux.owner), Header(proc.fullname), EchoText(stamp, line, kind.EchoedAsError())) else []
      ensures mux.owner == if Classify(line, old(inErrorSection)).Echoed() then Header(proc.fullname) else old(mux.owner)
    {
      var kind := Classify(line, inErrorSection);
      if ClearsSection(line) {
        inErrorSection := false;
      }
      if kind == ErrorToggle {
        inErrorSection := !inErrorSection;
      }
      if kind.Echoed() {
        mux.Echo(Header(proc.fullname), EchoText(stamp, line, kind.EchoedAsError()));
      }
    }
  }

  /** `handleLine` for every output line of a fresh build, in order. */
  method FeedLines(run: BuildRun, lines: seq<string>, stamps: seq<string>, dur: string)
    requires |stamps| == |lines| && run.State() == Fresh
    modifies run, run.mux
    ensures run.State() == Feed(Fresh, lines, run.proc)
    ensures var c := FeedConsole(old(run.mux.owner), lines, stamps, run.proc, dur);
      run.mux.owner == c.owner && run.mux.lines == old(run.mux.lines) + c.printed
  {
    ghost var owner0, printed0 := run.mux.owner, run.mux.lines;
    var i := 0;
    while i < |lines|
      invariant 0 <= i <= |lines|
      invariant run.State() == Feed(Fresh, lines[..i], run.proc)
      invariant run.mux.owner == FeedConsole(owner0, lines[..i], stamps[..i], run.proc, dur).owner
      invariant run.mux.lines == printed0 + FeedConsole(owner0, lines[..i], stamps[..i], run.proc, dur).printed
    {
      ghost var before, state := FeedConsole(owner0, lines[..i], stamps[..i], run.proc, dur), run.State();
      run.HandleLine(lines[i], stamps[i], dur);
      ConsoleAfterLine(owner0, printed0, lines, stamps, run.proc, dur, i, before, state, run.mux.owner, run.mux.lines);
      FeedStep(lines, run.proc, i);
      i := i + 1;
    }
    assert lines[..i] == lines && stamps[..i] == stamps;
  }

  /** One build from spawn to `close`: every output line, then the exit code.
      `stamps[i]` is the clock reading when line `i` arrives, `dur` the
      duration printed by `finishProc`. The console shows what the lines
      printed, then the closing message unless the marker already finished
      the build, and the build owns the console afterwards. */
  method Supervise(proc: Proc, mux: OutputMux, lines: seq<string>, stamps: seq<string>, closeStamp: string,
                   dur: string, code: Option<nat>)
    returns (result: Option<bool>, failures: seq<Failure>)
    requires |stamps| == |lines|
    modifies mux
    ensures result == Some(HasMarker(lines) || code == Some(0))
    ensures failures == if HasMarker(lines) || code == Some(0) then [] else [FailureOf(proc)]
    ensures var c := FeedConsole(old(mux.owner), lines, stamps, proc, dur);
      mux.lines == old(mux.lines) + c.printed + FinishLog(c.owner, Feed(Fresh, lines, proc), proc, code, closeStamp, dur)
    ensures mux.owner == Header(proc.fullname)
  {
    var run := new BuildRun(proc, mux);
    FeedLines(run, lines, stamps, dur);
    FinishedOwnsConsole(old(mux.owner), lines, stamps, proc, dur);
    run.FinishProc(code, closeStamp, dur);
    BuildOutcome(lines, code, proc);
    result, failures := run.result, run.failures;
  }
}
