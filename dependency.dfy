/** The plugin requirement checker of core/Plugin/Dependency.php.

    A plugin declares a `require` map from requirement names to version
    constraint expressions. The reserved names "piwik" (the platform) and
    "php" (the runtime) are matched ignoring case; every other name is taken
    to be a plugin. The checker resolves each name's current version, finds
    the comma-separated clauses that version fails, and reports them; it also
    answers, ignoring versions, whether some required plugin is not activated. */
module PluginDependency {
  import opened PhpStrings
  import opened Sequences

  /** One entry of a `require` map, in the map's iteration order. */
  datatype Requirement = Requirement(name: string, constraint: string)

  /** The report for a requirement the current configuration does not meet. */
  datatype MissingRequirement = MissingRequirement(
    requirement: string,      // the requirement's name
    actualVersion: string,    // the resolved current version, "" when unknown
    requiredVersion: string,  // the constraint expression as written
    causedBy: string)         // the failing clauses joined with ", "

  /** The semantic-version library the checker delegates to, left abstract:
      `parses(t)` holds when parseConstraints(t) returns instead of throwing,
      and `matches(clause, current)` when the constraint parsed from clause
      matches the one parsed from the current version. */
  datatype ConstraintParser = ConstraintParser(
    parses: string -> bool,
    matches: (string, string) -> bool)

  /** What the plugin manager reports. */
  datatype PluginRegistry = PluginRegistry(
    names: seq<string>,             // getAllPluginsNames()
    loaded: set<string>,            // the names isPluginLoaded() accepts
    activated: set<string>,         // the names isPluginActivated() accepts
    versions: map<string, string>,  // for each name loadPlugin() returns a plugin for, its getVersion()
    lookupFails: bool)              // a lookup during version resolution throws

  /** How a call ends: with a value, or by letting an exception escape. */
  datatype Outcome<T> = Returned(value: T) | Threw

  /** The environment the checker runs in: the runtime's version and the plugin manager. */
  datatype Runtime = Runtime(phpVersion: string, plugins: PluginRegistry)

  // ---------------------------------------------------------------------------
  // Resolving the current version

  /** "piwik" and "php", in any letter case, are not plugins. */
  predicate IsReservedName(name: string) {
    var lower := ToLower(name);
    lower == "piwik" || lower == "php"
  }

  /** Whether a name is reserved does not depend on the case of its letters:
      lower-casing it or upper-casing its first letter changes nothing. */
  lemma ReservedUnderCaseChange(name: string)
    ensures IsReservedName(ToLower(name)) <==> IsReservedName(name)
    ensures IsReservedName(Ucfirst(name)) <==> IsReservedName(name)
  {
    ToLowerIdempotent(name);
  }

  /** The version of a plugin, "" when it is unknown to the registry, not
      loaded, when a lookup throws, or when loading yields no plugin.
      The registry is searched with the name as given; the plugin is loaded
      under its name with the first letter upper-cased. */
  function PluginVersion(reg: PluginRegistry, name: string): (v: string)
    ensures v != "" ==>
      !reg.lookupFails && name in reg.names && name in reg.loaded &&
      Ucfirst(name) in reg.versions && v == reg.versions[Ucfirst(name)]
    ensures (!reg.lookupFails && name in reg.names && name in reg.loaded && Ucfirst(name) in reg.versions) ==>
            v == reg.versions[Ucfirst(name)]
  {
    if reg.lookupFails || name !in reg.names || name !in reg.loaded then ""
    else if Ucfirst(name) in reg.versions then reg.versions[Ucfirst(name)]
    else ""
  }

  /** getCurrentVersion: case-insensitive dispatch on the reserved names,
      everything else is looked up as a plugin. */
  function CurrentVersion(piwikVersion: string, rt: Runtime, name: string): (v: string)
    ensures ToLower(name) == "piwik" ==> v == piwikVersion
    ensures ToLower(name) == "php" ==> v == rt.phpVersion
    ensures !IsReservedName(name) && v != "" ==>
      !rt.plugins.lookupFails && name in rt.plugins.names && name in rt.plugins.loaded &&
      Ucfirst(name) in rt.plugins.versions && v == rt.plugins.versions[Ucfirst(name)]
    ensures (!IsReservedName(name) && !rt.plugins.lookupFails && name in rt.plugins.names &&
             name in rt.plugins.loaded && Ucfirst(name) in rt.plugins.versions) ==>
            v == rt.plugins.versions[Ucfirst(name)]
  {
    var lower := ToLower(name);
    if lower == "piwik" then piwikVersion
    else if lower == "php" then rt.phpVersion
    else PluginVersion(rt.plugins, name)
  }

  // ---------------------------------------------------------------------------
  // Finding failing clauses

  /** The clauses of a constraint expression: its comma-separated pieces, trimmed. */
  function Clauses(required: string): (cs: seq<string>)
    ensures |cs| == |Explode(required, ',')|
  {
    var pieces := Explode(required, ',');
    seq(|pieces|, i requires 0 <= i < |pieces| => Trim(pieces[i]))
  }

  /** Every clause is trimmed and holds no comma. */
  lemma ClausesAreTrimmed(required: string, c: string)
    requires c in Clauses(required)
    ensures IsTrimmed(c) && ',' !in c
  {
    var pieces := Explode(required, ',');
    var i :| 0 <= i < |pieces| && Clauses(required)[i] == c;
    assert pieces[i] in pieces;
    TrimIsSlice(pieces[i]);
  }

  /** A clause is reported when it is not empty() and the current version does not match it. */
  predicate ClauseFails(parser: ConstraintParser, current: string, clause: string) {
    !PhpEmpty(clause) && !parser.matches(clause, current)
  }

  function FailsAgainst(parser: ConstraintParser, current: string): string -> bool {
    clause => ClauseFails(parser, current, clause)
  }

  /** getMissingVersions: with no usable current version the whole expression
      is missing (unless it is itself empty()); otherwise the failing clauses,
      in the order they are written. */
  function MissingVersions(parser: ConstraintParser, currentVersion: string, requiredVersion: string): seq<string> {
    var current := Trim(currentVersion);
    if PhpEmpty(current) then
      (if PhpEmpty(requiredVersion) then [] else [requiredVersion])
    else
      Kept(Clauses(requiredVersion), FailsAgainst(parser, current))
  }

  lemma ClauseAt(requiredVersion: string, n: nat)
    requires n < |Explode(requiredVersion, ',')|
    ensures Clauses(requiredVersion)[n] == Trim(Explode(requiredVersion, ',')[n])
  {
  }

  /** The failing clauses among the first n pieces of requiredVersion. */
  function FailingAmong(parser: ConstraintParser, current: string, requiredVersion: string, n: nat): seq<string>
    requires n <= |Explode(requiredVersion, ',')|
  {
    Kept(Clauses(requiredVersion)[..n], FailsAgainst(parser, current))
  }

  lemma FailingAmongNone(parser: ConstraintParser, current: string, requiredVersion: string)
    ensures FailingAmong(parser, current, requiredVersion, 0) == []
  {
    assert Clauses(requiredVersion)[..0] == [];
  }

  lemma FailingAmongStep(parser: ConstraintParser, current: string, requiredVersion: string, n: nat)
    requires n < |Explode(requiredVersion, ',')|
    ensures var c := Clauses(requiredVersion)[n];
      FailingAmong(parser, current, requiredVersion, n + 1) ==
      FailingAmong(parser, current, requiredVersion, n) + (if ClauseFails(parser, current, c) then [c] else [])
  {
    KeptPrefixStep(Clauses(requiredVersion), FailsAgainst(parser, current), n);
  }

  lemma FailingAmongAll(parser: ConstraintParser, currentVersion: string, requiredVersion: string)
    requires !PhpEmpty(Trim(currentVersion))
    ensures FailingAmong(parser, Trim(currentVersion), requiredVersion, |Explode(requiredVersion, ',')|) ==
            MissingVersions(parser, currentVersion, requiredVersion)
  {
    var clauses := Clauses(requiredVersion);
    assert clauses[..|clauses|] == clauses;
  }

  /** parseConstraints accepts each clause among the first n pieces that is not empty(). */
  predicate ParsesAmong(parser: ConstraintParser, requiredVersion: string, n: nat)
    requires n <= |Explode(requiredVersion, ',')|
  {
    var clauses := Clauses(requiredVersion);
    forall k :: 0 <= k < n && !PhpEmpty(clauses[k]) ==> parser.parses(clauses[k])
  }

  /** parseConstraints accepts everything getMissingVersions hands it: the
      trimmed current version, when it is usable, and each clause that is not empty(). */
  predicate ParsesAll(parser: ConstraintParser, currentVersion: string, requiredVersion: string) {
    var current := Trim(currentVersion);
    !PhpEmpty(current) ==>
      parser.parses(current) && ParsesAmong(parser, requiredVersion, |Explode(requiredVersion, ',')|)
  }

  lemma ParsesAmongNone(parser: ConstraintParser, requiredVersion: string)
    ensures ParsesAmong(parser, requiredVersion, 0)
  {
  }

  /** Extending the prefix by one piece adds that piece's clause to what must parse. */
  lemma ParsesAmongStep(parser: ConstraintParser, requiredVersion: string, n: nat)
    requires n < |Explode(requiredVersion, ',')|
    ensures var c := Clauses(requiredVersion)[n];
      ParsesAmong(parser, requiredVersion, n + 1) <==>
      ParsesAmong(parser, requiredVersion, n) && (!PhpEmpty(c) ==> parser.parses(c))
  {
  }

  /** A clause that fails to parse among the first n pieces is one among the first m >= n. */
  lemma ParsesAmongPrefix(parser: ConstraintParser, requiredVersion: string, n: nat, m: nat)
    requires n <= m <= |Explode(requiredVersion, ',')|
    ensures ParsesAmong(parser, requiredVersion, m) ==> ParsesAmong(parser, requiredVersion, n)
  {
  }

  // ---------------------------------------------------------------------------
  // Building reports

  predicate Unmet(piwikVersion: string, rt: Runtime, parser: ConstraintParser, req: Requirement) {
    MissingVersions(parser, CurrentVersion(piwikVersion, rt, req.name), req.constraint) != []
  }

  function UnmetUnder(piwikVersion: string, rt: Runtime, parser: ConstraintParser): Requirement -> bool {
    req => Unmet(piwikVersion, rt, parser, req)
  }

  /** The report for one requirement: its name, its resolved version, its
      expression as written, and the missing versions joined with ", ". An
      unmet requirement always has a cause, starting with the first missing version. */
  function Report(piwikVersion: string, rt: Runtime, parser: ConstraintParser, req: Requirement): (r: MissingRequirement)
    ensures r.requirement == req.name && r.requiredVersion == req.constraint
    ensures r.actualVersion == CurrentVersion(piwikVersion, rt, req.name)
    ensures Unmet(piwikVersion, rt, parser, req) ==>
      var missing := MissingVersions(parser, r.actualVersion, req.constraint);
      missing[0] <= r.causedBy && missing[0] != [] && r.causedBy != []
  {
    var current := CurrentVersion(piwikVersion, rt, req.name);
    var missing := MissingVersions(parser, current, req.constraint);
    assert missing != [] ==> missing[0] != [] by {
      if missing != [] && !PhpEmpty(Trim(current)) {
        assert missing[0] in Kept(Clauses(req.constraint), FailsAgainst(parser, Trim(current)));
      }
    }
    MissingRequirement(req.name, current, req.constraint, Implode(missing, ", "))
  }

  /** getMissingDependencies: one report per unmet requirement, in input order. */
  function MissingDependencies(piwikVersion: string, rt: Runtime, parser: ConstraintParser,
                               requirements: seq<Requirement>): seq<MissingRequirement>
  {
    var unmet := Kept(requirements, UnmetUnder(piwikVersion, rt, parser));
    seq(|unmet|, j requires 0 <= j < |unmet| => Report(piwikVersion, rt, parser, unmet[j]))
  }

  /** Appending one requirement appends at most its own report. */
  lemma MissingDependenciesSnoc(piwikVersion: string, rt: Runtime, parser: ConstraintParser,
                                requirements: seq<Requirement>, req: Requirement)
    ensures MissingDependencies(piwikVersion, rt, parser, requirements + [req]) ==
            MissingDependencies(piwikVersion, rt, parser, requirements) +
            (if Unmet(piwikVersion, rt, parser, req) then [Report(piwikVersion, rt, parser, req)] else [])
  {
    KeptSnoc(requirements, UnmetUnder(piwikVersion, rt, parser), req);
  }

  /** The step getMissingDependencies' loop takes at position i. */
  lemma MissingDependenciesStep(piwikVersion: string, rt: Runtime, parser: ConstraintParser,
                                requirements: seq<Requirement>, i: nat)
    requires i < |requirements|
    ensures var req := requirements[i];
      MissingDependencies(piwikVersion, rt, parser, requirements[..i + 1]) ==
      MissingDependencies(piwikVersion, rt, parser, requirements[..i]) +
      (if Unmet(piwikVersion, rt, parser, req) then [Report(piwikVersion, rt, parser, req)] else [])
  {
    assert requirements[..i + 1] == requirements[..i] + [requirements[i]];
    MissingDependenciesSnoc(piwikVersion, rt, parser, requirements[..i], requirements[i]);
  }

  /** parseConstraints accepts everything checking the first n requirements hands it. */
  predicate AllParse(piwikVersion: string, rt: Runtime, parser: ConstraintParser,
                     requirements: seq<Requirement>, n: nat)
    requires n <= |requirements|
  {
    forall k :: 0 <= k < n ==>
      ParsesAll(parser, CurrentVersion(piwikVersion, rt, requirements[k].name), requirements[k].constraint)
  }

  /** Extending the prefix by one requirement adds that requirement's texts to what must parse. */
  lemma AllParseStep(piwikVersion: string, rt: Runtime, parser: ConstraintParser,
                     requirements: seq<Requirement>, n: nat)
    requires n < |requirements|
    ensures var req := requirements[n];
      AllParse(piwikVersion, rt, parser, requirements, n + 1) <==>
      AllParse(piwikVersion, rt, parser, requirements, n) &&
      ParsesAll(parser, CurrentVersion(piwikVersion, rt, req.name), req.constraint)
  {
  }

  /** A text that fails to parse among the first n requirements is one among the first m >= n. */
  lemma AllParsePrefix(piwikVersion: string, rt: Runtime, parser: ConstraintParser,
                       requirements: seq<Requirement>, n: nat, m: nat)
    requires n <= m <= |requirements|
    ensures AllParse(piwikVersion, rt, parser, requirements, m) ==> AllParse(piwikVersion, rt, parser, requirements, n)
  {
  }

  // ---------------------------------------------------------------------------
  // Requirements on plugins that are not activated

  /** The names of the plugin requirements, in input order. */
  function PluginNames(requirements: seq<Requirement>): (names: seq<string>)
    ensures forall n :: n in names ==> !IsReservedName(n)
    decreases |requirements|
  {
    if requirements == [] then []
    else
      var last := requirements[|requirements| - 1];
      PluginNames(requirements[..|requirements| - 1]) + (if IsReservedName(last.name) then [] else [last.name])
  }

  /** Some requirement that is not "piwik" or "php" names a plugin that is not activated. */
  ghost predicate DependsOnDisabledPlugin(reg: PluginRegistry, requirements: seq<Requirement>) {
    exists i :: 0 <= i < |requirements| && !IsReservedName(requirements[i].name) && requirements[i].name !in reg.activated
  }

  /** The plugin names of a prefix of the requirements are a prefix of all of them. */
  lemma {:induction false} PluginNamesPrefix(requirements: seq<Requirement>, i: nat)
    requires i <= |requirements|
    ensures PluginNames(requirements[..i]) <= PluginNames(requirements)
    decreases |requirements| - i
  {
    if i < |requirements| {
      var n := |requirements|;
      PluginNamesPrefix(requirements[..n - 1], i);
      assert requirements[..n - 1][..i] == requirements[..i];
    } else {
      assert requirements[..i] == requirements;
    }
  }

  // ---------------------------------------------------------------------------
  // The checker object

  class Dependency {
    /** The platform version that requirements on "piwik" are checked against. */
    var piwikVersion: string

    /** The source seeds the field with the release's version constant; here it is a parameter. */
    constructor (releaseVersion: string)
      ensures piwikVersion == releaseVersion
    {
      piwikVersion := releaseVersion;
    }

    method SetPiwikVersion(version: string)
      modifies this
      ensures piwikVersion == version
    {
      piwikVersion := version;
    }

    /** The failing clauses of requiredVersion against currentVersion, or
        Threw when parseConstraints throws on a text handed to it. */
    method GetMissingVersions(parser: ConstraintParser, currentVersion: string, requiredVersion: string)
      returns (outcome: Outcome<seq<string>>)
      ensures outcome.Returned? <==> ParsesAll(parser, currentVersion, requiredVersion)
      ensures outcome.Returned? ==> outcome.value == MissingVersions(parser, currentVersion, requiredVersion)
    {
      var current := Trim(currentVersion);
      var missingVersions := [];
      if PhpEmpty(current) {
        if !PhpEmpty(requiredVersion) {
          missingVersions := missingVersions + [requiredVersion];
        }
        return Returned(missingVersions);
      }
      if !parser.parses(current) {
        return Threw;
      }
      var requiredVersions := Explode(requiredVersion, ',');
      FailingAmongNone(parser, current, requiredVersion);
      ParsesAmongNone(parser, requiredVersion);
      for i := 0 to |requiredVersions|
        invariant missingVersions == FailingAmong(parser, current, requiredVersion, i)
        invariant ParsesAmong(parser, requiredVersion, i)
      {
        var required := Trim(requiredVersions[i]);
        ClauseAt(requiredVersion, i);
        FailingAmongStep(parser, current, requiredVersion, i);
        ParsesAmongStep(parser, requiredVersion, i);
        if !PhpEmpty(required) {
          if !parser.parses(required) {
            ParsesAmongPrefix(parser, requiredVersion, i + 1, |requiredVersions|);
            return Threw;
          }
          if !parser.matches(required, current) {
            missingVersions := missingVersions + [required];
          }
        }
      }
      FailingAmongAll(parser, currentVersion, requiredVersion);
      outcome := Returned(missingVersions);
    }

    /** The reports for every requirement the current configuration does not
        meet, or Threw when parseConstraints throws while checking one. */
    method GetMissingDependencies(rt: Runtime, parser: ConstraintParser, requirements: seq<Requirement>)
      returns (outcome: Outcome<seq<MissingRequirement>>)
      ensures outcome.Returned? <==> AllParse(piwikVersion, rt, parser, requirements, |requirements|)
      ensures outcome.Returned? ==> outcome.value == MissingDependencies(piwikVersion, rt, parser, requirements)
    {
      var missingRequirements := [];
      if |requirements| == 0 {
        return Returned(missingRequirements);
      }
      for i := 0 to |requirements|
        invariant missingRequirements == MissingDependencies(piwikVersion, rt, parser, requirements[..i])
        invariant AllParse(piwikVersion, rt, parser, requirements, i)
      {
        var name, requiredVersion := requirements[i].name, requirements[i].constraint;
        var currentVersion := CurrentVersion(piwikVersion, rt, name);
        var missing := GetMissingVersions(parser, currentVersion, requiredVersion);
        AllParseStep(piwikVersion, rt, parser, requirements, i);
        if missing.Threw? {
          AllParsePrefix(piwikVersion, rt, parser, requirements, i + 1, |requirements|);
          return Threw;
        }
        var missingVersions := missing.value;
        MissingDependenciesStep(piwikVersion, rt, parser, requirements, i);
        if missingVersions != [] {
          missingRequirements := missingRequirements + [MissingRequirement(
            name, currentVersion, requiredVersion, Implode(missingVersions, ", "))];
        }
      }
      assert requirements[..|requirements|] == requirements;
      outcome := Returned(missingRequirements);
    }

    /** Whether some required plugin is not activated; versions are not looked at.
        `queried` records the names the plugin manager is asked about, in order. */
    method HasDependencyToDisabledPlugin(reg: PluginRegistry, requirements: seq<Requirement>)
      returns (disabled: bool, ghost queried: seq<string>)
      ensures disabled <==> DependsOnDisabledPlugin(reg, requirements)
      ensures queried <= PluginNames(requirements)
      ensures forall q :: q in queried ==> !IsReservedName(q)
      ensures disabled ==> (queried != [] && queried[|queried| - 1] !in reg.activated &&
                            forall k :: 0 <= k < |queried| - 1 ==> queried[k] in reg.activated)
      ensures !disabled ==> queried == PluginNames(requirements)
    {
      disabled, queried := false, [];
      if |requirements| == 0 {
        return;
      }
      var i := 0;
      while i < |requirements|
        invariant 0 <= i <= |requirements|
        invariant queried == PluginNames(requirements[..i])
        invariant forall q :: q in queried ==> q in reg.activated
        invariant forall k :: 0 <= k < i ==> IsReservedName(requirements[k].name) || requirements[k].name in reg.activated
      {
        var name := requirements[i].name;
        PluginNamesPrefix(requirements, i + 1);
        assert requirements[..i + 1][..i] == requirements[..i];
        if !IsReservedName(name) {
          queried := queried + [name];
          if name !in reg.activated {
            disabled := true;
            return;
          }
        }
        i := i + 1;
      }
      assert requirements[..i] == requirements;
    }
  }
}
