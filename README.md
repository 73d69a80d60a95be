# Plugin requirement checker

A Dafny model of Piwik's plugin requirement checker, the `Dependency` class
(`core/Plugin/Dependency.php`). A plugin declares a `require` map from
requirement names to version constraint expressions such as `">=2.0,<3.0"`.
The checker does three things:

- It resolves each name's current version. The reserved names `piwik` (the
  platform) and `php` (the runtime) are matched ignoring case. Every other
  name is looked up as a plugin in the plugin manager.
- It splits each expression on `,`, trims the pieces, skips the `empty()`
  ones and collects, in order, the clauses the current version fails. Each
  requirement with a failing clause gets a "missing requirement" report.
- It answers, without looking at versions, whether some non-reserved
  requirement names a plugin that is not activated.

Files:

- `php_strings.dfy` (module `PhpStrings`): the PHP built-ins the class uses.
  These are `trim()`, `empty()` on strings (true for `""` and `"0"`),
  `strtolower()`, `ucfirst()`, `explode()` and `implode()`. It also holds
  their round-trip lemmas.
- `sequences.dfy` (module `Sequences`): `Kept`, an order-preserving filter,
  and the lemma that pins down exactly which positions it keeps.
- `dependency.dfy` (module `PluginDependency`): the data model, the
  specification functions and the class `Dependency`. The class has the
  `piwikVersion` field, which the constructor and `SetPiwikVersion` assign.
  Its methods `GetMissingVersions`, `GetMissingDependencies` and
  `HasDependencyToDisabledPlugin` are loops proved against the specification
  functions.
- `dependency_properties.dfy` (module `DependencyProperties`): lemmas about
  the specification functions.

Collaborators are abstract values:

- The semantic-version library becomes `ConstraintParser`. Its `parses`
  says which texts `parseConstraints` accepts. Its `matches(clause, current)`
  says whether the clause matches the current version.
- The plugin manager becomes `PluginRegistry`. It holds the list of plugin
  names, the loaded and activated sets, the version of each plugin that
  `loadPlugin` returns (keyed by the `ucfirst` name it is loaded under) and a
  flag for a lookup that throws.
- `PHP_VERSION` becomes `Runtime.phpVersion`.
- `Version::VERSION` becomes the constructor's parameter.
- An exception that escapes a method becomes the outcome `Threw`. Otherwise the method ends with `Returned(value)`.

Where a plain reading of "empty" or "case-insensitive" differs from the PHP
code, the model follows the code. A current version or expression of `"0"`
counts as empty, because `empty()` says so. Plugin names are compared
case-sensitively, because `in_array` does. A clause that does not parse makes
`parseConstraints` throw: it is not treated as a failing clause.

## Model

| member | source | states |
|---|---|---|
| `PluginDependency.Dependency.constructor` | core/Plugin/Dependency.php:23-26 | A new checker's platform version is the release version it is given. |
| `PluginDependency.Dependency.SetPiwikVersion` | core/Plugin/Dependency.php:89-92 | Afterwards the platform version used for `piwik` requirements is the one given. |
| `PluginDependency.PluginVersion` | core/Plugin/Dependency.php:123-139 | A non-empty plugin version means no lookup threw and the name is listed and loaded. It is then the version of the plugin loaded under the `ucfirst` name. When all of that holds and such a plugin exists, that version is the result. |
| `PluginDependency.ReservedUnderCaseChange` | core/Plugin/Dependency.php:101-102 | Whether a name is reserved (`piwik` or `php`) does not change when it is lower-cased or its first letter is upper-cased. |
| `PluginDependency.CurrentVersion` | core/Plugin/Dependency.php:115-140 | `piwik` in any case yields the platform field and `php` in any case the runtime version. Another name yields a non-empty version only if it is listed, loaded and no lookup failed; it then yields the version of the plugin loaded under its `ucfirst` name. |
| `DependencyProperties.ReservedNamesIgnoreCase` | core/Plugin/Dependency.php:117-121 | `PHP`, `Php`, `Piwik` and `PiWiK` are reserved and resolve to the runtime or platform version. |
| `DependencyProperties.UnlistedPluginReported` | core/Plugin/Dependency.php:124-128 | A plugin name missing from the registry's list resolves to `""`. Its non-empty requirement is reported with the whole expression as the cause. |
| `PluginDependency.Dependency.GetMissingVersions` | core/Plugin/Dependency.php:53-87 | The call throws exactly when `parseConstraints` rejects the usable trimmed current version or a clause that is not `empty()`. Otherwise it returns `MissingVersions`, whose meaning the lemmas below pin down. |
| `DependencyProperties.UnknownVersionMissesWholeExpression` | core/Plugin/Dependency.php:55-65 | An `empty()` trimmed current version gives `[expression]` verbatim, or `[]` when the expression is `empty()`. The matcher plays no part. |
| `DependencyProperties.KnownVersionMissesFailingClauses` | core/Plugin/Dependency.php:67-86 | With a usable version the result lists, at strictly increasing positions, exactly the trimmed pieces that are not `empty()` and fail to match. It has at most one entry per piece. |
| `DependencyProperties.ReportedClauseIffFailingPiece` | core/Plugin/Dependency.php:72-83 | A text is reported iff it is a trimmed piece that fails. A reported clause is trimmed, not blank, not `empty()`, comma-free and does not match. |
| `DependencyProperties.BlankPieceNeverReported` | core/Plugin/Dependency.php:73-77 | With a usable current version, a whitespace-only piece gives no entry: its position is not among those the result is drawn from. |
| `DependencyProperties.NothingMissingIffAllMatch` | core/Plugin/Dependency.php:72-86 | With a usable version nothing is missing iff every non-empty clause matches. |
| `DependencyProperties.MissingVersionsOfJoined` | core/Plugin/Dependency.php:70-84 | For trimmed, comma-free clauses joined by commas, the missing versions are the failing clauses among them, in order. |
| `DependencyProperties.PartialConjunction` | core/Plugin/Dependency.php:70-86 | A known version checked against a two-clause expression `low,high` that meets `low` but not `high` misses exactly `high`, as `2.5.0` against `>=1.0.0,<2.0.0` misses `<2.0.0`. |
| `PluginDependency.ClausesAreTrimmed` | core/Plugin/Dependency.php:70-73 | Every clause split from an expression is trimmed and holds no comma. |
| `DependencyProperties.ClausesOfJoined` | core/Plugin/Dependency.php:70-73 | Splitting and trimming a comma-join of trimmed, comma-free clauses gives back those clauses. |
| `PluginDependency.Dependency.GetMissingDependencies` | core/Plugin/Dependency.php:28-51 | The call throws exactly when checking some requirement throws. Otherwise it returns `MissingDependencies`, which is `[]` when there are no requirements. |
| `PluginDependency.Report` | core/Plugin/Dependency.php:41-46 | A report carries the requirement's name, its resolved version and its expression as written. For an unmet requirement the cause is never empty and starts with the first missing version. |
| `DependencyProperties.ReportsMatchUnmetRequirements` | core/Plugin/Dependency.php:36-50 | There is one report per requirement whose missing versions are non-empty and none for the others, in input order. Each report holds the name, the resolved version, the expression as written and the missing versions joined by `", "`. |
| `DependencyProperties.ReportCause` | core/Plugin/Dependency.php:37-47 | A report comes from an input requirement. With an unusable actual version its cause is the whole expression, which is not `empty()`; otherwise its cause joins the failing clauses, of which there is at least one. |
| `DependencyProperties.PlatformTooOld` | core/Plugin/Dependency.php:36-50 | A known platform version that fails a single one-clause `piwik` requirement yields exactly one report: the name, the platform version, the clause as the required version and the clause as its cause. An example is `2.9.9` against `>=3.0.0`. |
| `PluginDependency.Dependency.HasDependencyToDisabledPlugin` | core/Plugin/Dependency.php:94-113 | The result is true iff some non-reserved name is not activated. The names asked about are a prefix of the non-reserved names, never a reserved one. Asking stops at the first inactive name; when there is none, every non-reserved name is asked about. |
| `DependencyProperties.DisabledCheckReadsOnlyActivation` | core/Plugin/Dependency.php:100-108 | The answer depends only on the names and the activated set. It ignores the expressions and the registry's list, load state, versions and failures. |
| `DependencyProperties.ReservedOnlyNeverDisabled` | core/Plugin/Dependency.php:101-103 | Requirements naming only `piwik` or `php` (in any case) never count as disabled plugins, whatever the registry. |
| `PhpStrings.PhpEmpty` | core/Plugin/Dependency.php:59-75 | `empty()` holds for `""`, and only for texts of at most one character that are neither whitespace nor a comma. |
| `PhpStrings.ToLower` | core/Plugin/Dependency.php:101 | `strtolower()` keeps the length. |
| `PhpStrings.ToLowerMapsCapitals` | core/Plugin/Dependency.php:117 | `strtolower()` turns each ASCII capital into its small letter, keeps every other character and leaves no capital. |
| `PhpStrings.Ucfirst` | core/Plugin/Dependency.php:130 | `ucfirst()` keeps the length and every character after the first. The first is not a small ASCII letter afterwards. The lower-cased result equals the lower-cased input. |
| `PhpStrings.Implode` | core/Plugin/Dependency.php:45 | `implode()` of no parts is `""`. A join starts with its first part, followed by the glue when there is a second part. |
| `PhpStrings.Trim` | core/Plugin/Dependency.php:55 | The result neither starts nor ends with a character `trim()` strips. It is no longer than the input. |
| `PhpStrings.TrimEmptyIffBlank` | core/Plugin/Dependency.php:73 | `trim()` gives `""` exactly for whitespace-only input. |
| `PhpStrings.TrimIsSlice` | core/Plugin/Dependency.php:73 | `trim()` returns a contiguous part of its input. |
| `PhpStrings.Explode` | core/Plugin/Dependency.php:70 | `explode()` returns at least one piece, and no piece contains the separator. |
| `PhpStrings.ImplodeExplode` | core/Plugin/Dependency.php:70 | Joining the pieces of `explode()` with the separator gives back the input. |
| `PhpStrings.ExplodeImplode` | core/Plugin/Dependency.php:70 | Exploding a join of separator-free parts gives back the parts. |
| `Sequences.KeptIsSubsequence` | core/Plugin/Dependency.php:72-84 | The order-preserving filter keeps exactly the elements that satisfy its test, at strictly increasing positions. |

## Left out

- The semantic-version rules of the constraint library (`~`, `^`, ranges, pre-release ordering) are not modelled. `ConstraintParser.matches` is an arbitrary function, so every property holds for any matching rule.
- An exception from `parseConstraints` is modelled as the outcome `Threw`, without its type or message.
- `PluginDependency.Dependency.HasDependencyToDisabledPlugin` does not model an exception thrown by `isPluginActivated`. The source does not catch one there.
- `PluginDependency.CurrentVersion` folds every exception in the `try` block into one `lookupFails` flag. It does not say which call threw.
- PHP arrays convert integer-like string keys to integers. Requirement names are kept as strings here.
- `in_array` compares loosely, so numeric-looking strings can compare equal. The model uses exact comparison. For the reserved names `piwik` and `php` the two agree.
- `strtolower` and `ucfirst` are modelled on ASCII letters only. Locale-dependent case mapping is not modelled.
- The `(string)` casts are not modelled: names, versions and expressions are strings already.
- Repeated calls are not stated as a lemma. Every operation is a function of its inputs or a method proved equal to one, so it is deterministic by construction.
