/** The memory-limit rule of the `extension:composer` console command: before it
    hands over to Composer, the command reads PHP's `memory_limit`, converts the
    php.ini shorthand (`128M`, `2g`, `512k`, `1048576`) to bytes, and raises the
    limit to `512M` when it is neither unlimited (`-1`) nor already 512 MiB. */
module ExtensionComposerCommand {
  import opened PhpStrings
  import opened PhpIntCast

  /** The value the command raises a low limit to. */
  const RaisedLimit: string := "512M"

  /** 512 * 1024 * 1024 bytes: a limit below this is raised. */
  const Threshold: int := 512 * 1024 * 1024

  /** How many of the `*= 1024` statements of the switch run when it is entered
      with `unit`: `g` enters at the first and falls through the other two, `m`
      at the second, `k` at the third, anything else matches no case. */
  function Stages(unit: string): (k: nat)
    ensures k <= 3
    ensures k > 0 <==> unit in {"g", "m", "k"}
  {
    if unit == "g" then 3 else if unit == "m" then 2 else if unit == "k" then 1 else 0
  }

  /** The fall-through `switch ($unit)` on `$value`: each case multiplies by
      1024 and, having no `break`, continues into the next case. */
  function Switch(unit: string, value: int): (r: int)
    decreases Stages(unit)
  {
    if unit == "g" then Switch("m", value * 1024)
    else if unit == "m" then Switch("k", value * 1024)
    else if unit == "k" then value * 1024
    else value
  }

  /** `value` after `k` statements `$value *= 1024`. */
  function Scaled(value: int, k: nat): int {
    if k == 0 then value else Scaled(value, k - 1) * 1024
  }

  /** The unit: the last character, lower-cased, or nothing for an empty value
      (where `substr` yields an empty string or `false`, and neither matches a
      case). */
  function Unit(value: string): string {
    if value == [] then "" else [ToLower(value[|value| - 1])]
  }

  /** `memoryInBytes`: php.ini shorthand to bytes. */
  function MemoryInBytes(value: string): int {
    Switch(Unit(value), LeadingInt(value))
  }

  /** The raise condition: the trimmed limit is not loosely equal to -1 and
      converts to fewer bytes than 512 MiB. */
  predicate ShouldRaise(configured: string) {
    var limit := Trim(configured);
    !LooselyEqualsMinusOne(limit) && MemoryInBytes(limit) < Threshold
  }

  /** The memory limit in force after the rule has run (the `ini_set` succeeds):
      unlimited or at least 512 MiB, and left alone unless it had to be raised. */
  function EffectiveLimit(configured: string): (limit: string)
    ensures LooselyEqualsMinusOne(Trim(limit)) || MemoryInBytes(Trim(limit)) >= Threshold
    ensures ShouldRaise(configured) ==> MemoryInBytes(limit) == Threshold
    ensures !ShouldRaise(configured) ==> limit == configured
  {
    if ShouldRaise(configured) then
      RaisedLimitIsThreshold();
      RaisedLimit
    else
      configured
  }

  // ---------------------------------------------------------------------------
  // The switch as a multiplier

  /** Running the fall-through switch multiplies by 1024 once per stage. */
  lemma {:induction false} SwitchMultiplies(unit: string, value: int)
    ensures Switch(unit, value) == Scaled(value, Stages(unit))
    decreases Stages(unit)
  {
    if unit == "g" {
      SwitchMultiplies("m", value * 1024);
      ScaledFirst(value, 2);
    } else if unit == "m" {
      SwitchMultiplies("k", value * 1024);
      ScaledFirst(value, 1);
    }
  }

  /** The first multiplication can be done before the remaining ones. */
  lemma {:induction false} ScaledFirst(value: int, k: nat)
    ensures Scaled(value * 1024, k) == Scaled(value, k + 1)
    decreases k
  {
    if k > 0 {
      ScaledFirst(value, k - 1);
    }
  }

  /** Scaling keeps zero, positive and negative values on their side of zero
      and never moves them towards it. */
  lemma {:induction false} ScaledKeepsSign(n: int, k: nat)
    ensures Scaled(n, k) == 0 <==> n == 0
    ensures n > 0 ==> Scaled(n, k) >= n
    ensures n < 0 ==> Scaled(n, k) <= n
    decreases k
  {
    if k > 0 {
      ScaledKeepsSign(n, k - 1);
    }
  }

  /** Scaling by a fixed number of stages is monotone. */
  lemma {:induction false} ScaledMonotone(n: int, m: int, k: nat)
    requires n <= m
    ensures Scaled(n, k) <= Scaled(m, k)
    decreases k
  {
    if k > 0 {
      ScaledMonotone(n, m, k - 1);
    }
  }

  /** The three stages the switch can run, spelled out. */
  lemma ScaledStages(n: int)
    ensures Scaled(n, 1) == n * 1024
    ensures Scaled(n, 2) == n * 1024 * 1024
    ensures Scaled(n, 3) == n * 1024 * 1024 * 1024
  {
  }

  /** The conversion never changes the sign of the leading integer and never
      moves it towards zero. */
  lemma MemoryInBytesKeepsSign(value: string)
    ensures MemoryInBytes(value) == 0 <==> LeadingInt(value) == 0
    ensures LeadingInt(value) > 0 ==> MemoryInBytes(value) >= LeadingInt(value)
    ensures LeadingInt(value) < 0 ==> MemoryInBytes(value) <= LeadingInt(value)
  {
    var unit := Unit(value);
    SwitchMultiplies(unit, LeadingInt(value));
    ScaledKeepsSign(LeadingInt(value), Stages(unit));
  }

  /** For any value ending in the character `u`, the bytes are the leading
      integer of the part before `u`, multiplied by 1024 for every stage the
      lower-cased unit runs, provided `u` is not itself a digit. */
  lemma MemoryInBytesOfSuffix(s: string, u: char)
    requires !IsDigit(u)
    ensures MemoryInBytes(s + [u]) == Scaled(LeadingInt(s), Stages([ToLower(u)]))
  {
    LeadingIntAppendNonDigit(s, u);
    SwitchMultiplies([ToLower(u)], LeadingInt(s));
  }

  // ---------------------------------------------------------------------------
  // Units

  /** `k` and `K` mean kibibytes. */
  lemma KiloSuffix(s: string, u: char)
    requires u == 'k' || u == 'K'
    ensures MemoryInBytes(s + [u]) == LeadingInt(s) * 1024
  {
    MemoryInBytesOfSuffix(s, u);
    assert [ToLower(u)] == "k";
    ScaledStages(LeadingInt(s));
  }

  /** `m` and `M` mean mebibytes: the `m` case falls through into `k`. */
  lemma MegaSuffix(s: string, u: char)
    requires u == 'm' || u == 'M'
    ensures MemoryInBytes(s + [u]) == LeadingInt(s) * 1024 * 1024
  {
    MemoryInBytesOfSuffix(s, u);
    assert [ToLower(u)] == "m";
    ScaledStages(LeadingInt(s));
  }

  /** `g` and `G` mean gibibytes: the `g` case falls through `m` and `k`. */
  lemma GigaSuffix(s: string, u: char)
    requires u == 'g' || u == 'G'
    ensures MemoryInBytes(s + [u]) == LeadingInt(s) * 1024 * 1024 * 1024
  {
    MemoryInBytesOfSuffix(s, u);
    assert [ToLower(u)] == "g";
    ScaledStages(LeadingInt(s));
  }

  /** Any other last character leaves the leading integer unchanged: the switch
      has no default case. */
  lemma NoUnit(s: string)
    requires s == [] || ToLower(s[|s| - 1]) !in {'k', 'm', 'g'}
    ensures MemoryInBytes(s) == LeadingInt(s)
  {
    var unit := Unit(s);
    assert unit !in {"g", "m", "k"};
    SwitchMultiplies(unit, LeadingInt(s));
  }

  /** A plain number of bytes, without a unit, is read as it is. */
  lemma PlainBytes(n: int)
    ensures MemoryInBytes(Literal(n)) == n
  {
    var s := Literal(n);
    assert IsDigit(s[|s| - 1]) by {
      if n < 0 {
        assert s[|s| - 1] == Decimal(-n)[|Decimal(-n)| - 1];
      }
    }
    NoUnit(s);
    ReadLiteral(n);
  }

  /** The unit is recognised whatever its case. */
  lemma CaseInsensitive(s: string, u: char)
    ensures MemoryInBytes(s + [u]) == MemoryInBytes(s + [ToLower(u)])
  {
    if IsAsciiUpper(u) {
      MemoryInBytesOfSuffix(s, u);
      MemoryInBytesOfSuffix(s, ToLower(u));
    }
  }

  // ---------------------------------------------------------------------------
  // Ordering

  /** For a fixed suffix that is not a digit, a value whose number is larger
      never converts to fewer bytes, however the numbers are spelled. */
  lemma MonotoneInNumber(s: string, t: string, u: char)
    requires LeadingInt(s) <= LeadingInt(t)
    requires !IsDigit(u)
    ensures MemoryInBytes(s + [u]) <= MemoryInBytes(t + [u])
  {
    MemoryInBytesOfSuffix(s, u);
    MemoryInBytesOfSuffix(t, u);
    ScaledMonotone(LeadingInt(s), LeadingInt(t), Stages([ToLower(u)]));
  }

  /** The same holds for plain byte counts. */
  lemma MonotonePlain(n: int, m: int)
    requires n <= m
    ensures MemoryInBytes(Literal(n)) <= MemoryInBytes(Literal(m))
  {
    PlainBytes(n);
    PlainBytes(m);
  }

  /** For a positive number, bytes < `k` < `m` < `g`. */
  lemma UnitOrder(n: int)
    requires n > 0
    ensures MemoryInBytes(Literal(n)) < MemoryInBytes(Literal(n) + "k")
    ensures MemoryInBytes(Literal(n) + "k") < MemoryInBytes(Literal(n) + "m")
    ensures MemoryInBytes(Literal(n) + "m") < MemoryInBytes(Literal(n) + "g")
  {
    PlainBytes(n);
    ReadLiteral(n);
    KiloSuffix(Literal(n), 'k');
    MegaSuffix(Literal(n), 'm');
    GigaSuffix(Literal(n), 'g');
  }

  // ---------------------------------------------------------------------------
  // The raise rule

  /** A canonical value with a unit letter and nothing around it is its own
      trim and is never loosely equal to -1. */
  lemma WithUnitUntouched(n: int, u: char)
    requires u in {'k', 'K', 'm', 'M', 'g', 'G'}
    ensures Trim(Literal(n) + [u]) == Literal(n) + [u]
    ensures !LooselyEqualsMinusOne(Literal(n) + [u])
    ensures LeadingInt(Literal(n)) == n
  {
    var s := Literal(n) + [u];
    assert TrimClean(s) by {
      assert s[0] == Literal(n)[0];
    }
    assert s == [] + s + [];
    TrimOfPadded([], s, []);
    LiteralWithSuffixNotNumeric(n, u);
    ReadLiteral(n);
  }

  /** `<n>K` is raised exactly when n < 524288. */
  lemma RaiseWithKilo(n: int, u: char)
    requires u == 'k' || u == 'K'
    ensures ShouldRaise(Literal(n) + [u]) <==> n < 524288
  {
    ReadLiteral(n);
    KiloSuffix(Literal(n), u);
    RaiseWithUnitByBytes(n, u, n * 1024);
  }

  /** `<n>M` is raised exactly when n < 512; in particular `128M` is raised and
      `512M` is not. */
  lemma RaiseWithMega(n: int, u: char)
    requires u == 'm' || u == 'M'
    ensures ShouldRaise(Literal(n) + [u]) <==> n < 512
  {
    ReadLiteral(n);
    MegaSuffix(Literal(n), u);
    RaiseWithUnitByBytes(n, u, n * 1024 * 1024);
  }

  /** `<n>G` is raised exactly when n < 1; `1G` is not raised. */
  lemma RaiseWithGiga(n: int, u: char)
    requires u == 'g' || u == 'G'
    ensures ShouldRaise(Literal(n) + [u]) <==> n < 1
  {
    ReadLiteral(n);
    GigaSuffix(Literal(n), u);
    RaiseWithUnitByBytes(n, u, n * 1024 * 1024 * 1024);
  }

  /** For a canonical number with a unit letter, only its bytes count. */
  lemma RaiseWithUnitByBytes(n: int, u: char, bytes: int)
    requires u in {'k', 'K', 'm', 'M', 'g', 'G'}
    requires MemoryInBytes(Literal(n) + [u]) == bytes
    ensures ShouldRaise(Literal(n) + [u]) <==> bytes < Threshold
  {
    WithUnitUntouched(n, u);
    RaiseByBytes(Literal(n) + [u], bytes);
  }

  /** For a limit that is already trimmed and not -1, only the bytes count. */
  lemma RaiseByBytes(s: string, bytes: int)
    requires Trim(s) == s && !LooselyEqualsMinusOne(s)
    requires MemoryInBytes(s) == bytes
    ensures ShouldRaise(s) <==> bytes < Threshold
  {
  }

  /** A plain byte count is raised exactly when it is not -1 and below 512 MiB. */
  lemma RaisePlain(n: int)
    ensures ShouldRaise(Literal(n)) <==> n != -1 && n < Threshold
  {
    var s := Literal(n);
    assert TrimClean(s) by {
      if n < 0 {
        assert s[|s| - 1] == Decimal(-n)[|Decimal(-n)| - 1];
      }
    }
    assert s == [] + s + [];
    TrimOfPadded([], s, []);
    LiteralLooselyEqualsMinusOne(n);
    PlainBytes(n);
  }

  /** Surrounding white space that `trim` removes does not change the decision. */
  lemma RaiseIgnoresPadding(before: string, s: string, after: string)
    requires AllTrimmable(before) && AllTrimmable(after)
    ensures ShouldRaise(before + s + after) == ShouldRaise(s)
  {
    TrimIgnoresPadding(before, s, after);
  }

  /** The value the command sets is worth exactly 512 MiB. */
  lemma RaisedLimitIsThreshold()
    ensures MemoryInBytes(RaisedLimit) == Threshold
    ensures !ShouldRaise(RaisedLimit)
  {
    assert Literal(512) == "512" by {
      assert Decimal(512) == Decimal(51) + ['2'];
      assert Decimal(51) == Decimal(5) + ['1'];
    }
    assert RaisedLimit == Literal(512) + ['M'];
    MegaSuffix(Literal(512), 'M');
    WithUnitUntouched(512, 'M');
  }

  /** The rule is idempotent: once applied, applying it again changes nothing. */
  lemma RaiseIsIdempotent(configured: string)
    ensures EffectiveLimit(EffectiveLimit(configured)) == EffectiveLimit(configured)
  {
    var once := EffectiveLimit(configured);
    assert !ShouldRaise(once);
  }

  /** The canonical spellings the examples below use. */
  lemma Spellings()
    ensures Literal(-1) == "-1"
    ensures Literal(1) == "1"
    ensures Literal(128) == "128"
    ensures Literal(536870911) == "536870911"
    ensures Literal(1) + ['G'] == "1G"
    ensures Literal(128) + ['M'] == "128M"
  {
    assert Decimal(1) == "1";
    assert Decimal(128) == Decimal(12) + ['8'];
    assert Decimal(12) == Decimal(1) + ['2'];
    assert Decimal(536870911) == Decimal(53687091) + ['1'];
    assert Decimal(53687091) == Decimal(5368709) + ['1'];
    assert Decimal(5368709) == Decimal(536870) + ['9'];
    assert Decimal(536870) == Decimal(53687) + ['0'];
    assert Decimal(53687) == Decimal(5368) + ['7'];
    assert Decimal(5368) == Decimal(536) + ['8'];
    assert Decimal(536) == Decimal(53) + ['6'];
    assert Decimal(53) == Decimal(5) + ['3'];
  }

  /** `-1` means unlimited and is left alone. */
  lemma UnlimitedNotRaised()
    ensures !ShouldRaise("-1")
  {
    RaisePlain(-1);
    Spellings();
  }

  /** `1G` is already above 512 MiB. */
  lemma OneGigaNotRaised()
    ensures !ShouldRaise("1G")
  {
    RaiseWithGiga(1, 'G');
    Spellings();
  }

  /** `128M` is raised. */
  lemma Mega128Raised()
    ensures ShouldRaise("128M")
  {
    RaiseWithMega(128, 'M');
    Spellings();
  }

  /** One byte short of 512 MiB is raised. */
  lemma JustBelowThresholdRaised()
    ensures ShouldRaise("536870911")
  {
    RaisePlain(536870911);
    Spellings();
  }
}
