/**
 * The reading of an OpenSSH client configuration into host blocks, as one
 * pass over its lines (the specification of `SSHConfig.load`).
 *
 * Each line is stripped of surrounding whitespace; blank lines and comments
 * are skipped; any other line must match the settings pattern, giving a
 * keyword (compared lower-cased) and an argument. A `Host` line closes the
 * open block and opens a new one with the host patterns of its argument;
 * every other line changes the open block's settings (`HostBlock.Apply`).
 * Reading starts with an implicit block for the pattern `*` and closes the
 * last open block at the end of the input.
 */
module ConfigParser {
  import opened Wrappers
  import opened Text
  import opened SettingsRegex
  import opened HostBlock
  import Shlex

  datatype ParseError = UnparsableLine(line: string) | UnparsableHost(host: string)

  /** What one line of the file is. */
  datatype Directive = Skip | HostDirective(value: string) | Setting(key: string, value: string) | Malformed(line: string)

  const HostKey: string := "host"

  /** The block open before the first `Host` line. */
  const InitialBlock: Block := Block(["*"], map[])

  /** A stripped line that is empty or starts with `#`. */
  predicate IsBlankOrComment(line: string)
  {
    line == [] || line[0] == '#'
  }

  function Classify(raw: string): Directive
  {
    var line := Strip(raw);
    if IsBlankOrComment(line) then Skip
    else
      match MatchSetting(line)
      case None => Malformed(line)
      case Some((k, v)) =>
        var key := Lower(k);
        if key == HostKey then HostDirective(v) else Setting(key, v)
  }

  /**
   * A line is skipped exactly when it is all whitespace or its first
   * non-blank character is `#`; a line that is not skipped and does not match
   * the settings pattern is malformed, and is reported stripped; a line that
   * matches is a `Host` line exactly when its keyword lower-cases to `host`,
   * and otherwise a setting whose key is the lower-cased keyword and whose
   * value is the pattern's value group.
   */
  lemma ClassifyCases(raw: string)
    ensures Classify(raw).Skip? <==> AllSpace(raw) || Strip(raw)[0] == '#'
    ensures Classify(raw).Malformed? <==> !IsBlankOrComment(Strip(raw)) && MatchSetting(Strip(raw)).None?
    ensures Classify(raw).Malformed? ==> Classify(raw).line == Strip(raw)
    ensures Classify(raw).Setting? ==>
      var d := Classify(raw); d.key != HostKey && Lower(d.key) == d.key && d.value != []
    ensures !IsBlankOrComment(Strip(raw)) && MatchSetting(Strip(raw)).Some? ==>
      var (k, v) := MatchSetting(Strip(raw)).value;
      Classify(raw) == if Lower(k) == HostKey then HostDirective(v) else Setting(Lower(k), v)
  {
    var line := Strip(raw);
    if !IsBlankOrComment(line) && MatchSetting(line).Some? {
      LowerIdempotent(MatchSetting(line).value.0);
    }
  }

  /** `SSHConfig._get_hosts`: the host patterns of a `Host` argument. */
  function GetHosts(value: string): (r: Result<seq<string>, ParseError>)
    ensures r.Err? <==> Shlex.Split(value).None?
    ensures r.Err? ==> r.error == UnparsableHost(value)
    ensures r.Ok? ==> Some(r.value) == Shlex.Split(value)
  {
    match Shlex.Split(value)
    case None => Err(UnparsableHost(value))
    case Some(hosts) => Ok(hosts)
  }

  /** `Classify` applied to every line. */
  function Directives(lines: seq<string>): (ds: seq<Directive>)
    ensures |ds| == |lines|
    ensures forall i :: 0 <= i < |lines| ==> ds[i] == Classify(lines[i])
  {
    seq(|lines|, i requires 0 <= i < |lines| => Classify(lines[i]))
  }

  /** How the reading loop tells the kinds of line apart. */
  lemma ClassifySkipped(raw: string)
    requires IsBlankOrComment(Strip(raw))
    ensures Classify(raw) == Skip
  {
  }

  lemma ClassifyUnmatched(raw: string)
    requires !IsBlankOrComment(Strip(raw)) && MatchSetting(Strip(raw)).None?
    ensures Classify(raw) == Malformed(Strip(raw))
  {
  }

  lemma ClassifyMatched(raw: string, key: string, value: string)
    requires !IsBlankOrComment(Strip(raw)) && MatchSetting(Strip(raw)) == Some((key, value))
    ensures Classify(raw) == if Lower(key) == HostKey then HostDirective(value) else Setting(Lower(key), value)
  {
  }

  /**
   * The blocks appended to the object's list during a reading, and the error
   * that ended it early, if any. An error leaves the blocks already appended
   * in place.
   */
  datatype Outcome = Outcome(appended: seq<Block>, error: Option<ParseError>)

  function Then(done: seq<Block>, o: Outcome): Outcome
  {
    o.(appended := done + o.appended)
  }

  lemma ThenConcat(done: seq<Block>, more: seq<Block>, o: Outcome)
    ensures Then(done + more, o) == Then(done, Then(more, o))
  {
    assert done + more + o.appended == done + (more + o.appended);
  }

  /** The reading of the directives `ds` with `open` as the open block. */
  function Walk(ds: seq<Directive>, open: Block): (o: Outcome)
    requires WellShaped(open.config)
    decreases |ds|
  {
    if ds == [] then Outcome([open], None)
    else
      match ds[0]
      case Skip => Walk(ds[1..], open)
      case Malformed(line) => Outcome([], Some(UnparsableLine(line)))
      case HostDirective(value) =>
        // The open block is appended before the argument is split.
        (match GetHosts(value)
         case Err(e) => Outcome([open], Some(e))
         case Ok(hosts) => Then([open], Walk(ds[1..], Block(hosts, map[]))))
      case Setting(key, value) => Walk(ds[1..], open.(config := Apply(open.config, key, value)))
  }

  // One step of the reading, one lemma per kind of line.

  lemma WalkSkip(ds: seq<Directive>, i: nat, open: Block)
    requires i < |ds| && ds[i] == Skip && WellShaped(open.config)
    ensures Walk(ds[i..], open) == Walk(ds[i + 1..], open)
  {
    assert ds[i..][1..] == ds[i + 1..];
  }

  lemma WalkHost(ds: seq<Directive>, i: nat, open: Block, value: string)
    requires i < |ds| && ds[i] == HostDirective(value) && WellShaped(open.config)
    ensures GetHosts(value).Err? ==> Walk(ds[i..], open) == Outcome([open], Some(GetHosts(value).error))
    ensures GetHosts(value).Ok? ==>
      Walk(ds[i..], open) == Then([open], Walk(ds[i + 1..], Block(GetHosts(value).value, map[])))
  {
    assert ds[i..][1..] == ds[i + 1..];
  }

  lemma WalkSetting(ds: seq<Directive>, i: nat, open: Block, key: string, value: string)
    requires i < |ds| && ds[i] == Setting(key, value) && WellShaped(open.config)
    ensures Walk(ds[i..], open) == Walk(ds[i + 1..], open.(config := Apply(open.config, key, value)))
  {
    assert ds[i..][1..] == ds[i + 1..];
  }

  // The same steps stated for the raw line at index `i` of the file.

  lemma LineSkipped(lines: seq<string>, i: nat, open: Block)
    requires i < |lines| && IsBlankOrComment(Strip(lines[i])) && WellShaped(open.config)
    ensures Walk(Directives(lines)[i..], open) == Walk(Directives(lines)[i + 1..], open)
  {
    ClassifySkipped(lines[i]);
    WalkSkip(Directives(lines), i, open);
  }

  lemma LineMalformed(lines: seq<string>, i: nat, open: Block)
    requires i < |lines| && !IsBlankOrComment(Strip(lines[i])) && MatchSetting(Strip(lines[i])).None?
    requires WellShaped(open.config)
    ensures Walk(Directives(lines)[i..], open) == Outcome([], Some(UnparsableLine(Strip(lines[i]))))
  {
    ClassifyUnmatched(lines[i]);
    assert Directives(lines)[i..][0] == Directives(lines)[i];
  }

  lemma LineHost(lines: seq<string>, i: nat, open: Block, key: string, value: string)
    requires i < |lines| && !IsBlankOrComment(Strip(lines[i])) && MatchSetting(Strip(lines[i])) == Some((key, value))
    requires Lower(key) == HostKey && WellShaped(open.config)
    ensures GetHosts(value).Err? ==>
      Walk(Directives(lines)[i..], open) == Outcome([open], Some(GetHosts(value).error))
    ensures GetHosts(value).Ok? ==>
      Walk(Directives(lines)[i..], open) == Then([open], Walk(Directives(lines)[i + 1..], Block(GetHosts(value).value, map[])))
  {
    ClassifyMatched(lines[i], key, value);
    WalkHost(Directives(lines), i, open, value);
  }

  lemma LineSetting(lines: seq<string>, i: nat, open: Block, key: string, value: string)
    requires i < |lines| && !IsBlankOrComment(Strip(lines[i])) && MatchSetting(Strip(lines[i])) == Some((key, value))
    requires Lower(key) != HostKey && WellShaped(open.config)
    ensures Walk(Directives(lines)[i..], open) ==
      Walk(Directives(lines)[i + 1..], open.(config := Apply(open.config, Lower(key), value)))
  {
    ClassifyMatched(lines[i], key, value);
    WalkSetting(Directives(lines), i, open, Lower(key), value);
  }

  /**
   * The first block a reading appends has the patterns of the block open at
   * its start, and a reading that does not fail appends one block more than
   * there are `Host` lines.
   */
  lemma {:induction false} WalkBlockCount(ds: seq<Directive>, open: Block)
    requires WellShaped(open.config)
    ensures Walk(ds, open).appended != [] ==> Walk(ds, open).appended[0].host == open.host
    ensures Walk(ds, open).error.None? ==> |Walk(ds, open).appended| == 1 + |HostValues(ds)|
    decreases |ds|
  {
    if ds != [] {
      match ds[0]
      case Skip =>
        WalkBlockCount(ds[1..], open);
      case Malformed(_) =>
      case HostDirective(value) =>
        if GetHosts(value).Ok? {
          WalkBlockCount(ds[1..], Block(GetHosts(value).value, map[]));
        }
      case Setting(key, value) =>
        WalkBlockCount(ds[1..], open.(config := Apply(open.config, key, value)));
    }
  }

  /** The blocks one reading of `lines` yields, or its error. */
  function Parse(lines: seq<string>): (r: Result<seq<Block>, ParseError>)
    ensures r.Ok? ==> |r.value| == 1 + |HostValues(Directives(lines))| && r.value[0].host == ["*"]
  {
    WalkBlockCount(Directives(lines), InitialBlock);
    var o := Walk(Directives(lines), InitialBlock);
    if o.error.None? then Ok(o.appended) else Err(o.error.value)
  }

  // ---------------------------------------------------------------------
  // Reference definitions

  /** A directive that reading accepts: skipped, a setting, or a `Host` line whose argument splits. */
  predicate WellFormed(d: Directive)
  {
    match d
    case Malformed(_) => false
    case HostDirective(value) => Shlex.Split(value).Some?
    case _ => true
  }

  predicate AllWellFormed(ds: seq<Directive>)
  {
    forall i :: 0 <= i < |ds| ==> WellFormed(ds[i])
  }

  /** The error a directive that is not well formed raises. */
  function DirectiveError(d: Directive): ParseError
    requires !WellFormed(d)
  {
    match d
    case Malformed(line) => UnparsableLine(line)
    case HostDirective(value) => UnparsableHost(value)
  }

  /** The index of the first directive that is not well formed, or `|ds|`. */
  function FirstIllFormed(ds: seq<Directive>): (i: nat)
    ensures i <= |ds|
    ensures forall j :: 0 <= j < i ==> WellFormed(ds[j])
    ensures i < |ds| ==> !WellFormed(ds[i])
    decreases |ds|
  {
    if ds == [] then 0
    else if !WellFormed(ds[0]) then 0
    else
      var i := FirstIllFormed(ds[1..]);
      assert forall j :: 1 <= j < i + 1 ==> ds[j] == ds[1..][j - 1];
      i + 1
  }

  /** The directives that are not skipped, in order. */
  function Significant(ds: seq<Directive>): (r: seq<Directive>)
    ensures |r| <= |ds|
    ensures forall i :: 0 <= i < |r| ==> !r[i].Skip?
    decreases |ds|
  {
    if ds == [] then []
    else if ds[0].Skip? then Significant(ds[1..])
    else [ds[0]] + Significant(ds[1..])
  }

  /** The arguments of the `Host` lines, in order. */
  function HostValues(ds: seq<Directive>): (r: seq<string>)
    ensures |r| <= |ds|
    decreases |ds|
  {
    if ds == [] then []
    else if ds[0].HostDirective? then [ds[0].value] + HostValues(ds[1..])
    else HostValues(ds[1..])
  }

  /** A block as written: its host patterns and its setting lines (key lower-cased, argument as written). */
  datatype Section = Section(host: seq<string>, settings: seq<(string, string)>)

  /**
   * The file cut at its `Host` lines: the section under way, then one per
   * `Host` line, each holding the setting lines that follow it.
   */
  function Sections(ds: seq<Directive>, current: Section): (r: seq<Section>)
    requires AllWellFormed(ds)
    ensures |r| == 1 + |HostValues(ds)|
    decreases |ds|
  {
    if ds == [] then [current]
    else
      assert AllWellFormed(ds[1..]) by {
        assert forall i :: 0 <= i < |ds| - 1 ==> ds[1..][i] == ds[i + 1];
      }
      assert WellFormed(ds[0]);
      match ds[0]
      case HostDirective(value) => [current] + Sections(ds[1..], Section(Shlex.Split(value).value, []))
      case Setting(key, value) => Sections(ds[1..], current.(settings := current.settings + [(key, value)]))
      case Skip => Sections(ds[1..], current)
  }

  /** A section's block: its settings applied in order. */
  function ToBlock(s: Section): (b: Block)
    ensures b.host == s.host && WellShaped(b.config)
  {
    Block(s.host, Build(s.settings))
  }

  function ToBlocks(sections: seq<Section>): (r: seq<Block>)
    ensures |r| == |sections| && forall i :: 0 <= i < |r| ==> r[i] == ToBlock(sections[i])
  {
    if sections == [] then [] else [ToBlock(sections[0])] + ToBlocks(sections[1..])
  }

  // ---------------------------------------------------------------------
  // Properties of a reading

  lemma AllWellFormedTail(ds: seq<Directive>)
    requires ds != [] && AllWellFormed(ds)
    ensures WellFormed(ds[0]) && AllWellFormed(ds[1..])
  {
    assert forall i :: 0 <= i < |ds| - 1 ==> ds[1..][i] == ds[i + 1];
  }

  /** Blank and comment lines do not change what a reading yields. */
  lemma {:induction false} SkippedLinesIgnored(ds: seq<Directive>, open: Block)
    requires WellShaped(open.config)
    ensures Walk(ds, open) == Walk(Significant(ds), open)
    decreases |ds|
  {
    if ds != [] {
      var rest := ds[1..];
      var sig := Significant(ds);
      match ds[0]
      case Skip =>
        SkippedLinesIgnored(rest, open);
      case Malformed(_) =>
        assert sig[0] == ds[0];
      case HostDirective(value) =>
        assert sig[0] == ds[0] && sig[1..] == Significant(rest);
        if GetHosts(value).Ok? {
          SkippedLinesIgnored(rest, Block(GetHosts(value).value, map[]));
        }
      case Setting(key, value) =>
        assert sig[0] == ds[0] && sig[1..] == Significant(rest);
        SkippedLinesIgnored(rest, open.(config := Apply(open.config, key, value)));
    }
  }

  lemma FirstIllFormedStep(ds: seq<Directive>)
    requires ds != [] && WellFormed(ds[0])
    ensures FirstIllFormed(ds) == 1 + FirstIllFormed(ds[1..])
  {
  }

  lemma HostValuesStep(ds: seq<Directive>, i: nat)
    requires 0 < i <= |ds|
    ensures HostValues(ds[..i])
         == (if ds[0].HostDirective? then [ds[0].value] else []) + HostValues(ds[1..][..i - 1])
  {
    assert ds[..i][0] == ds[0];
    assert ds[..i][1..] == ds[1..][..i - 1];
  }

  /** A reading fails exactly when some line is not well formed. */
  lemma {:induction false} WalkFailsIff(ds: seq<Directive>, open: Block)
    requires WellShaped(open.config)
    ensures Walk(ds, open).error.None? <==> FirstIllFormed(ds) == |ds|
    decreases |ds|
  {
    if ds != [] {
      var rest := ds[1..];
      match ds[0]
      case Skip =>
        FirstIllFormedStep(ds);
        WalkFailsIff(rest, open);
      case Malformed(_) =>
      case HostDirective(value) =>
        if GetHosts(value).Ok? {
          FirstIllFormedStep(ds);
          WalkFailsIff(rest, Block(GetHosts(value).value, map[]));
        }
      case Setting(key, value) =>
        FirstIllFormedStep(ds);
        WalkFailsIff(rest, open.(config := Apply(open.config, key, value)));
    }
  }

  /**
   * A failed reading fails with the error of the first line that is not well
   * formed, after appending one block for each `Host` line before it, and
   * one more when that line is itself a `Host` line whose argument does not
   * split (the open block is appended before the argument is split).
   */
  lemma {:induction false} WalkFailure(ds: seq<Directive>, open: Block)
    requires WellShaped(open.config)
    requires FirstIllFormed(ds) < |ds|
    ensures Walk(ds, open).error == Some(DirectiveError(ds[FirstIllFormed(ds)]))
    ensures |Walk(ds, open).appended|
         == |HostValues(ds[..FirstIllFormed(ds)])|
            + (if ds[FirstIllFormed(ds)].HostDirective? then 1 else 0)
    decreases |ds|
  {
    var rest := ds[1..];
    var i := FirstIllFormed(ds);
    if i == 0 {
      assert ds[..0] == [];
    } else {
      FirstIllFormedStep(ds);
      HostValuesStep(ds, i);
      assert ds[i] == rest[i - 1];
      match ds[0]
      case Skip =>
        WalkFailure(rest, open);
      case HostDirective(value) =>
        WalkFailure(rest, Block(GetHosts(value).value, map[]));
      case Setting(key, value) =>
        WalkFailure(rest, open.(config := Apply(open.config, key, value)));
    }
  }

  /**
   * A reading of well-formed lines appends one block per section, in order:
   * the block's host patterns are the section's and its settings are the
   * section's setting lines applied in order.
   */
  lemma {:induction false} WalkBuildsSections(ds: seq<Directive>, host: seq<string>, settings: seq<(string, string)>)
    requires AllWellFormed(ds)
    ensures Walk(ds, Block(host, Build(settings)))
         == Outcome(ToBlocks(Sections(ds, Section(host, settings))), None)
    decreases |ds|
  {
    if ds == [] {
      assert ToBlocks([Section(host, settings)]) == [Block(host, Build(settings))];
    } else {
      AllWellFormedTail(ds);
      var rest := ds[1..];
      match ds[0]
      case Skip =>
        WalkBuildsSections(rest, host, settings);
      case HostDirective(value) =>
        var hosts := Shlex.Split(value).value;
        WalkBuildsSections(rest, hosts, []);
        var tail := Sections(rest, Section(hosts, []));
        assert ToBlocks([Section(host, settings)] + tail) == [Block(host, Build(settings))] + ToBlocks(tail);
      case Setting(key, value) =>
        var settings' := settings + [(key, value)];
        assert settings'[..|settings'| - 1] == settings;
        WalkBuildsSections(rest, host, settings');
    }
  }

  /**
   * The sections' host patterns: the current section's, then those of each
   * `Host` line, split by `shlex.split`, in order.
   */
  lemma {:induction false} SectionHosts(ds: seq<Directive>, current: Section)
    requires AllWellFormed(ds)
    ensures Sections(ds, current)[0].host == current.host
    ensures forall i :: 0 <= i < |HostValues(ds)| ==>
      Shlex.Split(HostValues(ds)[i]) == Some(Sections(ds, current)[i + 1].host)
    decreases |ds|
  {
    if ds != [] {
      AllWellFormedTail(ds);
      var rest := ds[1..];
      match ds[0]
      case Skip =>
        SectionHosts(rest, current);
      case HostDirective(value) =>
        var next := Section(Shlex.Split(value).value, []);
        SectionHosts(rest, next);
        var s := Sections(ds, current);
        assert s == [current] + Sections(rest, next);
      case Setting(key, value) =>
        SectionHosts(rest, current.(settings := current.settings + [(key, value)]));
    }
  }

  /**
   * A successful reading yields one block for the implicit `*` section and
   * one per `Host` line, in the order of the file; a reading succeeds exactly
   * when every line is well formed.
   */
  lemma ParseShape(lines: seq<string>)
    ensures Parse(lines).Ok? <==> AllWellFormed(Directives(lines))
    ensures Parse(lines).Ok? ==>
      var ds := Directives(lines); var blocks := Parse(lines).value; var hv := HostValues(ds);
      |blocks| == 1 + |hv|
      && blocks[0].host == ["*"]
      && (forall i :: 0 <= i < |hv| ==> Shlex.Split(hv[i]) == Some(blocks[i + 1].host))
      && blocks == ToBlocks(Sections(ds, Section(["*"], [])))
  {
    var ds := Directives(lines);
    WalkFailsIff(ds, InitialBlock);
    if AllWellFormed(ds) {
      assert FirstIllFormed(ds) == |ds|;
      assert Build([]) == map[];
      WalkBuildsSections(ds, ["*"], []);
      SectionHosts(ds, Section(["*"], []));
    } else {
      var k :| 0 <= k < |ds| && !WellFormed(ds[k]);
      assert FirstIllFormed(ds) <= k;
    }
  }
}
