/** What the plugin requirement checker promises, stated over the
    specification functions its methods are proved against. */
module DependencyProperties {
  import opened PhpStrings
  import opened Sequences
  import opened PluginDependency

  // ---------------------------------------------------------------------------
  // getMissingVersions

  /** Without a usable current version no clause is examined: the matcher
      plays no part, and the whole expression, verbatim, is the one missing
      item unless the expression is itself empty(). */
  lemma UnknownVersionMissesWholeExpression(parser: ConstraintParser, other: ConstraintParser,
                                            currentVersion: string, requiredVersion: string)
    requires PhpEmpty(Trim(currentVersion))
    ensures MissingVersions(parser, currentVersion, requiredVersion) ==
            MissingVersions(other, currentVersion, requiredVersion)
    ensures PhpEmpty(requiredVersion) ==> MissingVersions(parser, currentVersion, requiredVersion) == []
    ensures !PhpEmpty(requiredVersion) ==> MissingVersions(parser, currentVersion, requiredVersion) == [requiredVersion]
  {
  }

  /** With a usable current version the result is the subsequence of the
      trimmed pieces that fail: one entry per failing piece, none for the
      others, in the order they are written. */
  lemma KnownVersionMissesFailingClauses(parser: ConstraintParser, currentVersion: string, requiredVersion: string)
    requires !PhpEmpty(Trim(currentVersion))
    ensures var r := MissingVersions(parser, currentVersion, requiredVersion);
            var cs := Clauses(requiredVersion);
            var idx := KeptIndices(cs, FailsAgainst(parser, Trim(currentVersion)));
      |r| == |idx| && |r| <= |Explode(requiredVersion, ',')| &&
      StrictlyIncreasing(idx) &&
      (forall j :: 0 <= j < |r| ==> idx[j] < |cs| && r[j] == cs[idx[j]]) &&
      (forall i :: 0 <= i < |cs| ==> (i in idx <==> ClauseFails(parser, Trim(currentVersion), cs[i])))
  {
    var cs := Clauses(requiredVersion);
    var fails := FailsAgainst(parser, Trim(currentVersion));
    KeptIsSubsequence(cs, fails);
    assert forall i :: 0 <= i < |cs| ==> fails(cs[i]) == ClauseFails(parser, Trim(currentVersion), cs[i]);
  }

  /** A text is reported exactly when it is one of the trimmed pieces and
      fails; what is reported is trimmed, not blank, not empty(), holds no
      comma and does not match the current version. */
  lemma ReportedClauseIffFailingPiece(parser: ConstraintParser, currentVersion: string,
                                      requiredVersion: string, c: string)
    requires !PhpEmpty(Trim(currentVersion))
    ensures c in MissingVersions(parser, currentVersion, requiredVersion) <==>
            c in Clauses(requiredVersion) && ClauseFails(parser, Trim(currentVersion), c)
    ensures c in MissingVersions(parser, currentVersion, requiredVersion) ==>
            IsTrimmed(c) && c != [] && !IsTrimChar(c[0]) && !PhpEmpty(c) && ',' !in c &&
            !parser.matches(c, Trim(currentVersion))
  {
    var fails := FailsAgainst(parser, Trim(currentVersion));
    if c in Clauses(requiredVersion) && ClauseFails(parser, Trim(currentVersion), c) {
      assert fails(c);
      KeptComplete(Clauses(requiredVersion), fails, c);
    }
    if c in MissingVersions(parser, currentVersion, requiredVersion) {
      ClausesAreTrimmed(requiredVersion, c);
    }
  }

  /** With a usable current version, a piece made only of whitespace gives
      no entry: its position is not among those the result is drawn from. */
  lemma BlankPieceNeverReported(parser: ConstraintParser, currentVersion: string,
                                requiredVersion: string, i: nat)
    requires !PhpEmpty(Trim(currentVersion))
    requires i < |Explode(requiredVersion, ',')|
    requires var piece := Explode(requiredVersion, ',')[i];
      forall k :: 0 <= k < |piece| ==> IsTrimChar(piece[k])
    ensures i !in KeptIndices(Clauses(requiredVersion), FailsAgainst(parser, Trim(currentVersion)))
  {
    var cs := Clauses(requiredVersion);
    var fails := FailsAgainst(parser, Trim(currentVersion));
    TrimEmptyIffBlank(Explode(requiredVersion, ',')[i]);
    ClauseAt(requiredVersion, i);
    assert !fails(cs[i]);
    KeptIsSubsequence(cs, fails);
  }

  /** A usable current version meets the expression exactly when it matches
      every clause that is not empty(). */
  lemma NothingMissingIffAllMatch(parser: ConstraintParser, currentVersion: string, requiredVersion: string)
    requires !PhpEmpty(Trim(currentVersion))
    ensures MissingVersions(parser, currentVersion, requiredVersion) == [] <==>
            forall c :: c in Clauses(requiredVersion) && !PhpEmpty(c) ==> parser.matches(c, Trim(currentVersion))
  {
    var fails := FailsAgainst(parser, Trim(currentVersion));
    KeptEmptyIff(Clauses(requiredVersion), fails);
    assert forall c :: fails(c) == ClauseFails(parser, Trim(currentVersion), c);
  }

  /** Joining trimmed, comma-free clauses with commas and splitting the
      result again gives back the same clauses. */
  lemma ClausesOfJoined(parts: seq<string>)
    requires |parts| >= 1
    requires forall p :: p in parts ==> IsTrimmed(p) && ',' !in p
    ensures Clauses(Implode(parts, [','])) == parts
  {
    ExplodeImplode(parts, ',');
    forall i | 0 <= i < |parts|
      ensures Trim(parts[i]) == parts[i]
    {
      assert parts[i] in parts;
      TrimOfTrimmed(parts[i]);
    }
  }

  /** For an expression written as trimmed, comma-free clauses joined with
      commas, the missing versions are the failing ones among those clauses. */
  lemma MissingVersionsOfJoined(parser: ConstraintParser, currentVersion: string, parts: seq<string>)
    requires !PhpEmpty(Trim(currentVersion))
    requires |parts| >= 1
    requires forall p :: p in parts ==> IsTrimmed(p) && ',' !in p
    ensures MissingVersions(parser, currentVersion, Implode(parts, [','])) ==
            Kept(parts, FailsAgainst(parser, Trim(currentVersion)))
  {
    ClausesOfJoined(parts);
  }

  /** A two-clause conjunction whose first clause matches and whose second
      does not (say 2.5.0 against ">=1.0.0,<2.0.0") misses exactly the second. */
  lemma PartialConjunction(parser: ConstraintParser, currentVersion: string, low: string, high: string)
    requires !PhpEmpty(Trim(currentVersion))
    requires IsTrimmed(low) && ',' !in low && IsTrimmed(high) && ',' !in high && !PhpEmpty(high)
    requires parser.matches(low, Trim(currentVersion)) && !parser.matches(high, Trim(currentVersion))
    ensures MissingVersions(parser, currentVersion, low + "," + high) == [high]
  {
    var fails := FailsAgainst(parser, Trim(currentVersion));
    assert MissingVersions(parser, currentVersion, low + "," + high) == Kept([low, high], fails) by {
      assert Implode([low, high], [',']) == low + "," + high;
      MissingVersionsOfJoined(parser, currentVersion, [low, high]);
    }
    assert Kept([low, high], fails) == [high] by {
      KeptSnoc([], fails, low);
      assert [] + [low] == [low];
      KeptSnoc([low], fails, high);
      assert [low] + [high] == [low, high];
    }
  }

  // ---------------------------------------------------------------------------
  // getMissingDependencies

  /** One report per requirement whose missing versions are not empty, none
      for the others, in input order; each report carries the requirement's
      name, its resolved current version, its expression as written and the
      missing versions joined with ", ". */
  lemma ReportsMatchUnmetRequirements(piwikVersion: string, rt: Runtime, parser: ConstraintParser,
                                      requirements: seq<Requirement>)
    ensures var r := MissingDependencies(piwikVersion, rt, parser, requirements);
            var idx := KeptIndices(requirements, UnmetUnder(piwikVersion, rt, parser));
      |r| == |idx| && StrictlyIncreasing(idx) &&
      (forall j :: 0 <= j < |r| ==>
        (idx[j] < |requirements| &&
         var req := requirements[idx[j]];
         var current := CurrentVersion(piwikVersion, rt, req.name);
         r[j] == MissingRequirement(req.name, current, req.constraint,
                                    Implode(MissingVersions(parser, current, req.constraint), ", ")))) &&
      (forall i :: 0 <= i < |requirements| ==>
        (i in idx <==>
         MissingVersions(parser, CurrentVersion(piwikVersion, rt, requirements[i].name), requirements[i].constraint) != []))
  {
    var unmet := UnmetUnder(piwikVersion, rt, parser);
    KeptIsSubsequence(requirements, unmet);
    assert forall req :: unmet(req) == Unmet(piwikVersion, rt, parser, req);
  }

  /** What a report says: if the actual version is unusable, the cause is the
      whole expression as written (which is not empty()); otherwise it is the
      failing clauses, of which there is at least one. */
  lemma ReportCause(piwikVersion: string, rt: Runtime, parser: ConstraintParser,
                    requirements: seq<Requirement>, m: MissingRequirement)
    requires m in MissingDependencies(piwikVersion, rt, parser, requirements)
    ensures Requirement(m.requirement, m.requiredVersion) in requirements
    ensures m.actualVersion == CurrentVersion(piwikVersion, rt, m.requirement)
    ensures PhpEmpty(Trim(m.actualVersion)) ==>
      !PhpEmpty(m.requiredVersion) && m.causedBy == m.requiredVersion
    ensures !PhpEmpty(Trim(m.actualVersion)) ==>
      var failing := Kept(Clauses(m.requiredVersion), FailsAgainst(parser, Trim(m.actualVersion)));
      failing != [] && m.causedBy == Implode(failing, ", ")
  {
    var unmet := Kept(requirements, UnmetUnder(piwikVersion, rt, parser));
    var j :| 0 <= j < |unmet| && MissingDependencies(piwikVersion, rt, parser, requirements)[j] == m;
    var req := unmet[j];
    assert req in unmet;
    assert UnmetUnder(piwikVersion, rt, parser)(req);
    assert req == Requirement(m.requirement, m.requiredVersion);
  }

  /** A requirement on a plugin the registry does not list is reported with
      an empty actual version and its whole expression as the cause. */
  lemma UnlistedPluginReported(piwikVersion: string, rt: Runtime, parser: ConstraintParser,
                               requirements: seq<Requirement>, i: nat)
    requires i < |requirements|
    requires !IsReservedName(requirements[i].name) && requirements[i].name !in rt.plugins.names
    requires !PhpEmpty(requirements[i].constraint)
    ensures MissingRequirement(requirements[i].name, "", requirements[i].constraint, requirements[i].constraint)
            in MissingDependencies(piwikVersion, rt, parser, requirements)
  {
    var req := requirements[i];
    var unmet := UnmetUnder(piwikVersion, rt, parser);
    assert Trim("") == "";
    assert unmet(req);
    KeptComplete(requirements, unmet, req);
    var kept := Kept(requirements, unmet);
    var j :| 0 <= j < |kept| && kept[j] == req;
    assert MissingDependencies(piwikVersion, rt, parser, requirements)[j] == Report(piwikVersion, rt, parser, req);
  }

  /** A single one-clause requirement on the platform that the platform
      version fails (say 2.9.9 against "piwik": ">=3.0.0") yields exactly one
      report, whose cause is that clause. */
  lemma PlatformTooOld(rt: Runtime, parser: ConstraintParser, platform: string, name: string, expr: string)
    requires ToLower(name) == "piwik" && !PhpEmpty(Trim(platform))
    requires IsTrimmed(expr) && ',' !in expr && !PhpEmpty(expr)
    requires !parser.matches(expr, Trim(platform))
    ensures MissingDependencies(platform, rt, parser, [Requirement(name, expr)]) ==
            [MissingRequirement(name, platform, expr, expr)]
  {
    var req := Requirement(name, expr);
    assert CurrentVersion(platform, rt, name) == platform;
    assert MissingVersions(parser, platform, expr) == [expr] by {
      MissingVersionsOfJoined(parser, platform, [expr]);
      KeptSnoc([], FailsAgainst(parser, Trim(platform)), expr);
      assert [] + [expr] == [expr];
    }
    assert Kept([req], UnmetUnder(platform, rt, parser)) == [req] by {
      KeptSnoc([], UnmetUnder(platform, rt, parser), req);
      assert [] + [req] == [req];
    }
  }

  // ---------------------------------------------------------------------------
  // hasDependencyToDisabledPlugin

  /** Only activation is consulted: neither the expressions, nor the
      registry's names, load state, versions or failures change the answer. */
  lemma DisabledCheckReadsOnlyActivation(reg: PluginRegistry, other: PluginRegistry,
                                         requirements: seq<Requirement>, renamed: seq<Requirement>)
    requires reg.activated == other.activated
    requires |renamed| == |requirements|
    requires forall i :: 0 <= i < |requirements| ==> renamed[i].name == requirements[i].name
    ensures DependsOnDisabledPlugin(reg, requirements) == DependsOnDisabledPlugin(other, renamed)
  {
    if DependsOnDisabledPlugin(reg, requirements) {
      var i :| 0 <= i < |requirements| && !IsReservedName(requirements[i].name) && requirements[i].name !in reg.activated;
      assert renamed[i].name == requirements[i].name;
    }
  }

  /** Requirements on "piwik" and "php" alone never count as disabled plugins. */
  lemma ReservedOnlyNeverDisabled(reg: PluginRegistry, requirements: seq<Requirement>)
    requires forall req :: req in requirements ==> IsReservedName(req.name)
    ensures !DependsOnDisabledPlugin(reg, requirements)
  {
    forall i | 0 <= i < |requirements|
      ensures IsReservedName(requirements[i].name)
    {
      assert requirements[i] in requirements;
    }
  }

  /** The reserved names are recognised in any letter case. */
  lemma ReservedNamesIgnoreCase(piwikVersion: string, rt: Runtime)
    ensures IsReservedName("PHP") && IsReservedName("Piwik")
    ensures CurrentVersion(piwikVersion, rt, "PiWiK") == piwikVersion
    ensures CurrentVersion(piwikVersion, rt, "Php") == rt.phpVersion
  {
    assert ToLower("PHP") == "php";
    assert ToLower("Php") == "php";
    assert ToLower("Piwik") == "piwik";
    assert ToLower("PiWiK") == "piwik";
  }
}
