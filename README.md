# Memory-limit rule of the `extension:composer` command

Before the `extension:composer` console command of Pagekit's system extension
hands an extension's `composer` section to Composer, it reads PHP's
`memory_limit`, trims it, and raises it to `512M` unless it is unlimited (`-1`)
or already worth at least 512 MiB. The helper `memoryInBytes` converts the
php.ini shorthand to bytes: the last character, lower-cased, selects a unit
(`g`, `m`, `k`) in a `switch` whose cases fall through one another, each
multiplying the `(int)` value of the string by 1024.

This project models that rule, from
`extensions/system/src/System/Console/ExtensionComposerCommand.php`, as pure
functions and proves its properties (line numbers below are lines of that
file):

- `PhpStrings` — `strtolower` on one character (`ToLower`) and `trim` with its
  default character list ` `, `\t`, `\n`, `\r`, `\0`, `\x0B` (`Trim`, used
  at line 56).
- `PhpIntCast` — the `(int)` cast of a string (`LeadingInt`, used at line 93:
  leading white space, optional sign, longest run of digits, 0 when there are
  none), the canonical decimal spelling of an integer (`Literal`), and PHP 8's
  loose comparison of a string with `-1` (`LooselyEqualsMinusOne`, used at
  line 58).
- `ExtensionComposerCommand` — the computation itself:
  - `Unit` takes the lower-cased last character (line 92);
  - `Switch` is the fall-through `switch` (lines 94-103);
  - `MemoryInBytes` is `memoryInBytes` (lines 91-106);
  - `ShouldRaise` is the raise condition on the trimmed limit (lines 56-58);
  - `EffectiveLimit` is the limit in force afterwards (lines 56-60).

## Model

All source paths below refer to `extensions/system/src/System/Console/ExtensionComposerCommand.php`
(written out in full in each row).

| member | source | states |
|---|---|---|
| ExtensionComposerCommand.Stages | extensions/system/src/System/Console/ExtensionComposerCommand.php:94-103 | the switch runs at most three multiplications, and at least one exactly when the unit is `g`, `m` or `k` |
| ExtensionComposerCommand.SwitchMultiplies | extensions/system/src/System/Console/ExtensionComposerCommand.php:94-103 | the fall-through switch multiplies the value by 1024 once per stage: three times for `g`, twice for `m`, once for `k`, never otherwise |
| ExtensionComposerCommand.ScaledFirst | extensions/system/src/System/Console/ExtensionComposerCommand.php:95-102 | entering one case earlier means one more multiplication by 1024, done first |
| ExtensionComposerCommand.ScaledStages | extensions/system/src/System/Console/ExtensionComposerCommand.php:95-102 | one, two and three stages multiply by 1024, 1024² and 1024³ |
| ExtensionComposerCommand.ScaledKeepsSign | extensions/system/src/System/Console/ExtensionComposerCommand.php:95-102 | the multiplications keep zero at zero and never move a value towards zero |
| ExtensionComposerCommand.ScaledMonotone | extensions/system/src/System/Console/ExtensionComposerCommand.php:95-102 | the multiplications preserve the order of values |
| ExtensionComposerCommand.MemoryInBytesKeepsSign | extensions/system/src/System/Console/ExtensionComposerCommand.php:91-106 | the bytes are 0 exactly when the `(int)` value is 0, and otherwise have its sign and at least its magnitude |
| ExtensionComposerCommand.MemoryInBytesOfSuffix | extensions/system/src/System/Console/ExtensionComposerCommand.php:91-106 | for a value ending in a non-digit `u`, the bytes are the integer read from what precedes `u`, scaled by the stages of lower-case `u` |
| ExtensionComposerCommand.KiloSuffix | extensions/system/src/System/Console/ExtensionComposerCommand.php:92-102 | a value ending in `k` or `K` converts to its leading integer times 1024 |
| ExtensionComposerCommand.MegaSuffix | extensions/system/src/System/Console/ExtensionComposerCommand.php:92-102 | a value ending in `m` or `M` converts to its leading integer times 1024² (the `m` case falls into `k`) |
| ExtensionComposerCommand.GigaSuffix | extensions/system/src/System/Console/ExtensionComposerCommand.php:92-102 | a value ending in `g` or `G` converts to its leading integer times 1024³ (the `g` case falls through `m` and `k`) |
| ExtensionComposerCommand.NoUnit | extensions/system/src/System/Console/ExtensionComposerCommand.php:92-105 | an empty value, or one whose lower-cased last character is not `k`, `m` or `g`, converts to its `(int)` value unchanged |
| ExtensionComposerCommand.PlainBytes | extensions/system/src/System/Console/ExtensionComposerCommand.php:91-106 | every integer written in decimal without a unit converts to itself |
| ExtensionComposerCommand.CaseInsensitive | extensions/system/src/System/Console/ExtensionComposerCommand.php:92 | a value converts to the same bytes whether its last character is upper or lower case |
| ExtensionComposerCommand.MonotoneInNumber | extensions/system/src/System/Console/ExtensionComposerCommand.php:91-106 | with the same non-digit last character, a value whose `(int)` is larger never converts to fewer bytes, whatever the spelling (`+128M`, `0128M`, padded forms) |
| ExtensionComposerCommand.MonotonePlain | extensions/system/src/System/Console/ExtensionComposerCommand.php:91-106 | a larger plain byte count never converts to fewer bytes |
| ExtensionComposerCommand.UnitOrder | extensions/system/src/System/Console/ExtensionComposerCommand.php:94-103 | for a positive number n: n bytes < `nk` < `nm` < `ng` |
| ExtensionComposerCommand.EffectiveLimit | extensions/system/src/System/Console/ExtensionComposerCommand.php:56-60 | after the rule, the trimmed limit is unlimited or worth at least 512 MiB; a raised limit is worth exactly 512 MiB; a limit that is not raised is left as it was |
| ExtensionComposerCommand.WithUnitUntouched | extensions/system/src/System/Console/ExtensionComposerCommand.php:56-58 | a number with a unit letter is unchanged by `trim`, is not loosely equal to -1, and its number is read back |
| ExtensionComposerCommand.RaiseWithKilo | extensions/system/src/System/Console/ExtensionComposerCommand.php:56-58 | `<n>k` / `<n>K` is raised exactly when n < 524288 |
| ExtensionComposerCommand.RaiseWithMega | extensions/system/src/System/Console/ExtensionComposerCommand.php:56-58 | `<n>m` / `<n>M` is raised exactly when n < 512 |
| ExtensionComposerCommand.RaiseWithGiga | extensions/system/src/System/Console/ExtensionComposerCommand.php:56-58 | `<n>g` / `<n>G` is raised exactly when n < 1 |
| ExtensionComposerCommand.RaiseWithUnitByBytes | extensions/system/src/System/Console/ExtensionComposerCommand.php:56-58 | a number with a unit letter is raised exactly when its bytes are below 536870912 |
| ExtensionComposerCommand.RaisePlain | extensions/system/src/System/Console/ExtensionComposerCommand.php:56-58 | a plain byte count n is raised exactly when n is not -1 and n < 536870912 |
| ExtensionComposerCommand.RaiseIgnoresPadding | extensions/system/src/System/Console/ExtensionComposerCommand.php:56 | characters `trim` strips around the limit do not change the decision |
| ExtensionComposerCommand.RaisedLimitIsThreshold | extensions/system/src/System/Console/ExtensionComposerCommand.php:58-59 | `512M` is worth exactly 512·1024·1024 bytes and is itself not raised |
| ExtensionComposerCommand.RaiseIsIdempotent | extensions/system/src/System/Console/ExtensionComposerCommand.php:56-60 | applying the rule to the limit it leaves changes nothing |
| ExtensionComposerCommand.Spellings | extensions/system/src/System/Console/ExtensionComposerCommand.php:56-59 | the decimal spellings of -1, 1, 128 and 536870911, with and without a unit, are the strings a php.ini holds |
| ExtensionComposerCommand.UnlimitedNotRaised | extensions/system/src/System/Console/ExtensionComposerCommand.php:56-59 | `-1` is not raised |
| ExtensionComposerCommand.OneGigaNotRaised | extensions/system/src/System/Console/ExtensionComposerCommand.php:56-59 | `1G` is not raised |
| ExtensionComposerCommand.Mega128Raised | extensions/system/src/System/Console/ExtensionComposerCommand.php:56-59 | `128M` is raised |
| ExtensionComposerCommand.JustBelowThresholdRaised | extensions/system/src/System/Console/ExtensionComposerCommand.php:56-59 | `536870911` is raised |
| PhpStrings.ToLower | extensions/system/src/System/Console/ExtensionComposerCommand.php:92 | `strtolower` on one character yields no upper-case letter, maps `A`-`Z` onto `a`-`z` and changes nothing else |
| PhpStrings.TrimLeftSpec | extensions/system/src/System/Console/ExtensionComposerCommand.php:56 | the left half of `trim` keeps a suffix not starting with a trimmable character and drops only trimmable ones |
| PhpStrings.TrimRightSpec | extensions/system/src/System/Console/ExtensionComposerCommand.php:56 | the right half of `trim` keeps a prefix not ending with a trimmable character and drops only trimmable ones |
| PhpStrings.Trim | extensions/system/src/System/Console/ExtensionComposerCommand.php:56 | `trim` yields a string neither end of which is trimmable, no longer than its input |
| PhpStrings.TrimOfPadded | extensions/system/src/System/Console/ExtensionComposerCommand.php:56 | `trim` of a clean string padded on both sides with trimmable characters is that string |
| PhpStrings.Decompose | extensions/system/src/System/Console/ExtensionComposerCommand.php:56 | every string is its trimmed core between two runs of trimmable characters |
| PhpStrings.TrimIgnoresPadding | extensions/system/src/System/Console/ExtensionComposerCommand.php:56 | adding trimmable characters on either side does not change the result of `trim` |
| PhpStrings.TrimIdempotent | extensions/system/src/System/Console/ExtensionComposerCommand.php:56 | trimming twice equals trimming once |
| PhpIntCast.DigitsValue | extensions/system/src/System/Console/ExtensionComposerCommand.php:93 | a run of k decimal digits is worth less than 10^k |
| PhpIntCast.SkipSpaceSpec | extensions/system/src/System/Console/ExtensionComposerCommand.php:93 | the cast skips exactly the leading run of white space |
| PhpIntCast.DigitPrefixSpec | extensions/system/src/System/Console/ExtensionComposerCommand.php:93 | the cast reads the longest prefix of digits and stops at the first non-digit |
| PhpIntCast.DigitsValueOfDecimal | extensions/system/src/System/Console/ExtensionComposerCommand.php:93 | reading the decimal spelling of a natural number gives that number back |
| PhpIntCast.LeadingIntOfLiteral | extensions/system/src/System/Console/ExtensionComposerCommand.php:93 | `(int)` of the decimal spelling of n, followed by anything that does not start with a digit, is n |
| PhpIntCast.ReadLiteral | extensions/system/src/System/Console/ExtensionComposerCommand.php:93 | `(int)` of the decimal spelling of n is n |
| PhpIntCast.LeadingIntWithoutDigits | extensions/system/src/System/Console/ExtensionComposerCommand.php:93 | `(int)` of a string without digits is 0 |
| PhpIntCast.LeadingIntAppendNonDigit | extensions/system/src/System/Console/ExtensionComposerCommand.php:93 | appending a non-digit, such as a unit letter, never changes `(int)` of a string |
| PhpIntCast.LiteralLooselyEqualsMinusOne | extensions/system/src/System/Console/ExtensionComposerCommand.php:58 | the decimal spelling of n is a numeric string, loosely equal to -1 exactly when n is -1 |
| PhpIntCast.LiteralWithSuffixNotNumeric | extensions/system/src/System/Console/ExtensionComposerCommand.php:58 | a number followed by a unit letter is not numeric, so it is never loosely equal to -1 (even `-1M`) |

## Left out

- The rest of `execute`: reading the extension's `extension.json`, the error
  exits, `putenv`, creating Composer, the locker and the installer, and running
  it. These are I/O and calls into the Composer library; package resolution,
  lock files and installation live in that library and are not part of this
  model.
- `configure`: it only declares the command's name, argument and option.
- `ini_get` and `ini_set`: the configured limit is a parameter of the model, and
  `EffectiveLimit` assumes the `@ini_set('memory_limit', '512M')` succeeds (its
  failure is silenced in the source).
- PHP integer overflow: the model uses unbounded integers, whereas PHP turns a
  product beyond `PHP_INT_MAX` into a float, and `(int)` saturates on very long
  digit runs.
- PhpIntCast.LeadingInt: stops at the first character that is not a digit.
  From PHP 7.1 on, `(int)` of a string with a fractional part or an exponent
  reads it as a float and then truncates it. So `"1e3"` gives 1000 where the
  model gives 1. A fraction gives the same result as the model, except where
  the float rounds: `"0.99999999999999999999M"` is 1 MiB in PHP but 0 in the
  model, and runs of more than 15 or so significant digits followed by a
  fraction can also differ.
- PhpIntCast.LooselyEqualsMinusOne: follows PHP 8, where only a numeric string
  (optional white space, sign, digits, trailing white space) is compared with -1
  by value. Before PHP 8 a leading-numeric string such as `-1M` also compared
  equal to -1. Non-integer spellings of -1 (`-1.0`, `-1e0`) are not recognised.
- Characters are taken as ASCII text: PHP strings are bytes, and `strtolower`
  before PHP 8.2 depended on the locale; only `A`-`Z` are lower-cased here.
