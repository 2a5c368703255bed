# Hyphenated input resolver, modelled in Dafny

The `viserio/console` component has one parameter resolver,
`HyphenatedInputResolver::getParameters`. Given a callable, a bag of provided
`name => value` arguments and the parameters already resolved by earlier
resolvers (`position => value`), it fills further positions. It matches a
provided name such as `dry-run`, `DRY-RUN` or `Dry-Run` to a declared parameter
`$dryRun` or `$dryrun`. It works in two passes:

1. It builds a lookup table from each declared parameter name, lower-cased, to
   that parameter's position. Declared names are visited in order, so when two
   names lower-case alike the later position wins.
2. It visits the provided arguments in iteration order. It removes every `-`
   from each name and lower-cases the result. The argument is skipped when that
   key is not in the table, or when its position is already resolved.
   Otherwise the value is written at that position.

The model has two modules:

- `Names` (`names.dfy`): lower-casing, hyphen removal and their composition
  `Normalise`. It also proves their algebra: idempotence, insensitivity to case
  and to hyphens, and agreement with lower-casing on names without hyphens.
- `HyphenatedInputResolver` (`resolver.dfy`): the specification functions.
  `Lookup` builds the table. `Step`, `ResolveWith` and `Resolve` do the skip-or-insert
  pass as a left fold over the provided arguments. The lemmas prove what the
  resolver promises. `GetParameters` is the routine itself: two `for` loops
  whose `continue` skips mirror the source. It is proved equal to `Resolve`.
  The table-building loop is the method `BuildLookup`, which `GetParameters` calls.

Representation:

- Declared parameters are a `seq<string>`; the index is the position.
- Provided arguments are a `seq<(string, V)>` in iteration order. That order
  decides which of several synonyms wins.
- Resolved parameters are a `map<int, V>`.
- Values have an opaque type parameter `V`.

## Model

| member | source | states |
|---|---|---|
| `Names.LowerChar` | HyphenatedInputResolver.php:31 | one character is lower-cased: each of `A`-`Z` becomes the letter at the same place in `a`-`z`, anything else is kept, the result is never an ASCII capital, and `-` maps to `-` and only `-` does |
| `Names.Lower` | HyphenatedInputResolver.php:31 | lower-casing keeps the length and maps each character through `LowerChar` (only `A`-`Z` change) |
| `Names.LowerKeepsLowercase` | HyphenatedInputResolver.php:31 | a name with no ASCII capital is its own lower-case form |
| `Names.StripHyphens` | HyphenatedInputResolver.php:35 | the result contains no `-` and is no longer than the input |
| `Names.StripHyphensKeepsOthers` | HyphenatedInputResolver.php:35 | hyphen removal keeps every other character exactly as often as it occurs, and no `-` |
| `Names.Normalise` | HyphenatedInputResolver.php:35 | the normal form of a provided name has no `-` and no ASCII capital |
| `Names.StripHyphensAppend` | HyphenatedInputResolver.php:35 | hyphen removal distributes over concatenation |
| `Names.LowerAppend` | HyphenatedInputResolver.php:35 | lower-casing distributes over concatenation |
| `Names.LowerStripCommute` | HyphenatedInputResolver.php:35 | removing hyphens then lower-casing equals lower-casing then removing hyphens |
| `Names.NormalisePlainName` | HyphenatedInputResolver.php:31-35 | a name without `-` (every PHP parameter name) normalises to its lower-cased form, so a provided name matches a declared one exactly when the normal forms agree |
| `Names.NormaliseIdempotent` | HyphenatedInputResolver.php:35 | normalising twice is normalising once |
| `Names.NormaliseIgnoresCase` | HyphenatedInputResolver.php:35 | a name and its lower-cased form normalise alike |
| `Names.NormaliseUpToCase` | HyphenatedInputResolver.php:35 | two names of equal length whose characters are pairwise equal or ASCII case partners (`dryRun` and `DRYRUN`) have the same normal form |
| `Names.NormaliseIgnoresHyphen` | HyphenatedInputResolver.php:35 | inserting `-` anywhere in a name leaves its normal form unchanged |
| `Names.DryRunSpellings` | HyphenatedInputResolver.php:14-15 | the documented `dry-run`, its case variants `DRY-RUN` and `Dry-Run`, and `dryRun` and `dryrun` all normalise to `dryrun`, the lower-cased form of both declared spellings `dryRun` and `dryrun` |
| `HyphenatedInputResolver.Lookup` | HyphenatedInputResolver.php:30-32 | every entry of the table is a declared position (below the number of declared names) whose name lower-cases to the key |
| `HyphenatedInputResolver.LookupLastWriteWins` | HyphenatedInputResolver.php:30-32 | every declared name's lower-cased form is a key, and its entry is that name's own position or a later one (last write wins) |
| `HyphenatedInputResolver.BuildLookup` | HyphenatedInputResolver.php:28-32 | the first loop builds exactly the table `Lookup` specifies |
| `HyphenatedInputResolver.Step` | HyphenatedInputResolver.php:35-49 | one argument keeps every resolved entry, adds at most its own target position with its value, and adds it whenever that position was free |
| `HyphenatedInputResolver.ResolveWith` | HyphenatedInputResolver.php:34-50 | no entry resolved before is removed or overwritten |
| `HyphenatedInputResolver.ResolveWithAddsOnlyTable` | HyphenatedInputResolver.php:42-49 | every key the pass adds is a position held by some entry of the table |
| `HyphenatedInputResolver.Resolve` | HyphenatedInputResolver.php:28-52 | the whole resolver keeps every entry resolved before, with its value, and adds only declared positions |
| `HyphenatedInputResolver.ResolveWithUnresolved` | HyphenatedInputResolver.php:34-50 | a position not resolved before is filled if and only if some provided name targets it, and then with the value of the first such name in iteration order |
| `HyphenatedInputResolver.ResolveWithAppend` | HyphenatedInputResolver.php:34-50 | resolving a concatenation resolves the first part, then the second from that result |
| `HyphenatedInputResolver.ResolveNewEntries` | HyphenatedInputResolver.php:42-49 | each new entry `k` is a declared position, and its value comes from the first provided name whose normal form equals `Lower(declared[k])` |
| `HyphenatedInputResolver.ResolveFillsEveryMatch` | HyphenatedInputResolver.php:38-49 | every provided name whose normal form is in the table leaves its position filled |
| `HyphenatedInputResolver.ResolveSkipsUnmatched` | HyphenatedInputResolver.php:37-40 | an argument whose normal form is no declared name's lower-cased form changes nothing, wherever it stands |
| `HyphenatedInputResolver.ResolveIgnoresSpelling` | HyphenatedInputResolver.php:35 | two provided names with the same normal form have the same effect at the same place |
| `HyphenatedInputResolver.ResolveIdempotent` | HyphenatedInputResolver.php:44-49 | resolving again from the previous result, with the same inputs, returns that result unchanged |
| `HyphenatedInputResolver.ResolveNeverFillsShadowed` | HyphenatedInputResolver.php:30-49 | when two declared names lower-case alike, the earlier position is never filled by this resolver |
| `HyphenatedInputResolver.GetParameters` | HyphenatedInputResolver.php:23-53 | the routine returns exactly `Resolve(declared, provided, resolvedParameters)`, keeps every entry resolved before and adds only declared positions |
| `HyphenatedInputResolver.ExampleTables` | HyphenatedInputResolver.php:30-32 | `["dryRun"]` and `["dryrun"]` give the table `{dryrun: 0}`, and `["dryRun", "force"]` gives `{dryrun: 0, force: 1}` |
| `HyphenatedInputResolver.ExampleOneStep` | HyphenatedInputResolver.php:37-49 | one argument against the table `{dryrun: 0}` fills position 0 when it normalises to `dryrun` and 0 is free, and otherwise changes nothing |
| `HyphenatedInputResolver.ExampleDocumented` | HyphenatedInputResolver.php:14-15 | `dry-run => true` fills a parameter declared as `dryRun`, and one declared as `dryrun`, with `true` |
| `HyphenatedInputResolver.ExampleBothResolved` | HyphenatedInputResolver.php:34-49 | `dry-run => true, force => false` against `dryRun, force` gives `{0: true, 1: false}` |
| `HyphenatedInputResolver.ExampleNothingAdded` | HyphenatedInputResolver.php:37-47 | `quiet` against `dryRun` adds nothing; `dry-run => false` leaves a pre-resolved `{0: true}` unchanged |

## Left out

- Names.Lower: models `mb_strtolower` on ASCII letters only. Full Unicode case mapping is not modelled.
- Reflection (`ReflectionFunctionAbstract::getParameters`) is replaced by the input sequence of declared names. Only the names and their positions are used.
- The `ParameterResolver` interface and the invoker library that chains resolvers are not part of this model.
- PHP array key coercion is not modelled. PHP turns a numeric-string key such as `"1"` into an integer. Under the file's `declare(strict_types=1)` (line 2), PHP 8 then makes `str_replace` at line 35 throw a `TypeError` for that key; PHP 7 turns it back into a string. The model treats every provided name as a string and has no error path for integer keys.
- Provided names are not required to be distinct, as PHP array keys are. The model covers every sequence of pairs, a superset of what PHP can pass.
- Resolve, GetParameters: the PHP result is an ordered array, in which earlier entries keep their place and new entries are appended in the iteration order of the provided arguments (lines 49 and 52). The model returns a `map<int, V>`, which has no order, so this order is not modelled.
- Values are opaque. Nothing is coerced or validated, as in the source.
- Declared names are only lower-cased, as line 31 does; they are not stripped of hyphens. A description that normalises declared names like provided ones would differ only for declared names containing `-`, and PHP parameter names cannot contain `-`.
- The table-building loop (lines 30-32) is the separate method `BuildLookup`. The source inlines it in `getParameters`, and the behaviour is the same.
