/** The key strings of the event table: `version_sk`, `audit_sk` and `gsi_partition` in
    `core/eventstore.py`. */
module SortKeys {
  import opened Wrappers
  import opened Positional

  const DECIMAL := "0123456789"

  const VERSION_WIDTH := 10

  lemma {:induction false} DecimalOrdered()
    ensures |DECIMAL| == 10 && Ordered(DECIMAL)
  {
    assert forall i, j | 0 <= i < j < 10 :: DECIMAL[i] < DECIMAL[j];
  }

  function Zeros(n: int): string
    decreases n
  {
    if n <= 0 then "" else Zeros(n - 1) + "0"
  }

  /** `f"{n:0{width}d}"`: at least `width` digits, more when the number needs them. */
  function Padded(n: nat, width: int): string
    decreases n
  {
    if n < 10 then Zeros(width - 1) + [DECIMAL[n]]
    else Padded(n / 10, width - 1) + [DECIMAL[n % 10]]
  }

  lemma {:induction false} ZerosParse(n: int)
    ensures Parse(DECIMAL, Zeros(n)) == Some(0)
    decreases n
  {
    if n > 0 {
      ZerosParse(n - 1);
      DecimalOrdered();
      ParseOneMore(DECIMAL, Zeros(n - 1), 0, 0);
      assert Zeros(n) == Zeros(n - 1) + [DECIMAL[0]];
    }
  }

  /** Padding and width never change the number written. */
  lemma {:induction false} PaddedParse(n: nat, width: int)
    ensures Parse(DECIMAL, Padded(n, width)) == Some(n)
    decreases n
  {
    DecimalOrdered();
    if n < 10 {
      ZerosParse(width - 1);
      ParseOneMore(DECIMAL, Zeros(width - 1), 0, n);
    } else {
      PaddedParse(n / 10, width - 1);
      ParseOneMore(DECIMAL, Padded(n / 10, width - 1), n / 10, n % 10);
    }
  }

  lemma {:induction false} ZerosAreDigits(width: nat)
    ensures Zeros(width) == Digits(DECIMAL, 0, width)
    decreases width
  {
    if width > 0 {
      ZerosAreDigits(width - 1);
      assert Last(0, 10) == 0 && Rest(0, 10) == 0;
    }
  }

  lemma {:induction false} TensFit(n: nat, width: nat)
    requires width > 0 && n < Pow(10, width)
    ensures n / 10 < Pow(10, width - 1) && (n >= 10 ==> width > 1)
  {
    assert Rest(n, 10) == n / 10;
    RestFits(n, 10, width - 1);
  }

  lemma {:induction false} DigitsByTens(n: nat, width: nat)
    requires width > 0
    ensures Digits(DECIMAL, n, width) == Digits(DECIMAL, n / 10, width - 1) + [DECIMAL[n % 10]]
  {
    DecimalOrdered();
    assert Last(n, 10) == n % 10 && Rest(n, 10) == n / 10;
  }

  /** Numbers that fit are written in exactly `width` digits. */
  lemma {:induction false} PaddedFits(n: nat, width: nat)
    requires width > 0 && n < Pow(10, width)
    ensures Padded(n, width) == Digits(DECIMAL, n, width)
    decreases n
  {
    DigitsByTens(n, width);
    TensFit(n, width);
    if n < 10 {
      ZerosAreDigits(width - 1);
    } else {
      PaddedFits(n / 10, width - 1);
    }
  }

  function VersionSk(version: nat): string {
    "v#" + Padded(version, VERSION_WIDTH)
  }

  function AuditSk(sequence: nat): string {
    "audit#" + Padded(sequence, VERSION_WIDTH)
  }

  const CURRENT_SK := "current"

  lemma {:induction false} TenDigits()
    ensures Pow(10, VERSION_WIDTH) == 10_000_000_000
  {
    assert Pow(10, 1) == 10;
    assert Pow(10, 2) == 10 * Pow(10, 1);
    assert Pow(10, 3) == 10 * Pow(10, 2);
    assert Pow(10, 4) == 10 * Pow(10, 3);
    assert Pow(10, 5) == 10 * Pow(10, 4);
    assert Pow(10, 6) == 10 * Pow(10, 5);
    assert Pow(10, 7) == 10 * Pow(10, 6);
    assert Pow(10, 8) == 10 * Pow(10, 7);
    assert Pow(10, 9) == 10 * Pow(10, 8);
  }

  /** Below ten digits the sort key orders versions as numbers do. */
  lemma {:induction false} VersionsSortNumerically(v: nat, w: nat)
    requires v < 10_000_000_000 && w < 10_000_000_000
    ensures Less(VersionSk(v), VersionSk(w)) <==> v < w
    ensures Less(AuditSk(v), AuditSk(w)) <==> v < w
  {
    PaddedOrder(v, w);
    CommonPrefix("v#", Padded(v, VERSION_WIDTH), Padded(w, VERSION_WIDTH));
    CommonPrefix("audit#", Padded(v, VERSION_WIDTH), Padded(w, VERSION_WIDTH));
  }

  lemma {:induction false} PaddedOrder(v: nat, w: nat)
    requires v < 10_000_000_000 && w < 10_000_000_000
    ensures Less(Padded(v, VERSION_WIDTH), Padded(w, VERSION_WIDTH)) <==> v < w
  {
    TenDigits();
    DecimalOrdered();
    PaddedFits(v, VERSION_WIDTH);
    PaddedFits(w, VERSION_WIDTH);
    if v < w {
      DigitsIncrease(DECIMAL, v, w, VERSION_WIDTH);
    } else if w < v {
      DigitsIncrease(DECIMAL, w, v, VERSION_WIDTH);
      LessAsymmetric(Padded(w, VERSION_WIDTH), Padded(v, VERSION_WIDTH));
    } else {
      LessIrreflexive(Padded(v, VERSION_WIDTH));
    }
  }

  lemma {:induction false} LessAsymmetric(a: string, b: string)
    requires Less(a, b)
    ensures !Less(b, a)
    decreases |a|
  {
    if a != [] && a[0] == b[0] {
      LessAsymmetric(a[1..], b[1..]);
    }
  }

  /** The eleventh digit breaks the order. */
  lemma {:induction false} ElevenDigitsSortWrong()
    ensures Less(VersionSk(10_000_000_000), VersionSk(9_999_999_999))
  {
    TenDigits();
    DecimalOrdered();
    PaddedFits(9_999_999_999, VERSION_WIDTH);
    CommonPrefix("v#", Padded(10_000_000_000, VERSION_WIDTH), Padded(9_999_999_999, VERSION_WIDTH));
    FirstOfTenBillion();
  }

  /** Versions below `n` sort as numbers exactly when none needs an eleventh digit. */
  lemma {:induction false} VersionsSortIff(n: nat)
    ensures (forall v: nat, w: nat | v < n && w < n :: Less(VersionSk(v), VersionSk(w)) <==> v < w)
      <==> n <= 10_000_000_000
  {
    if n <= 10_000_000_000 {
      forall v: nat, w: nat | v < n && w < n
        ensures Less(VersionSk(v), VersionSk(w)) <==> v < w
      {
        VersionsSortNumerically(v, w);
      }
    } else {
      ElevenDigitsSortWrong();
    }
  }

  lemma {:induction false} FirstOfTenBillion()
    ensures Less(Padded(10_000_000_000, VERSION_WIDTH), Padded(9_999_999_999, VERSION_WIDTH))
  {
    FirstDigit(10_000_000_000, VERSION_WIDTH, 11, 1);
    FirstDigit(9_999_999_999, VERSION_WIDTH, 10, 9);
  }

  function PowTen(n: nat): nat {
    if n == 0 then 1 else 10 * PowTen(n - 1)
  }

  /** A number of at least `width` digits starts with its leading digit. */
  lemma {:induction false} FirstDigit(n: nat, width: int, digits: nat, lead: nat)
    requires 0 < digits && width <= digits && 0 < lead < 10
    requires lead * PowTen(digits - 1) <= n < (lead + 1) * PowTen(digits - 1)
    ensures Padded(n, width) != [] && Padded(n, width)[0] == DECIMAL[lead]
    decreases digits
  {
    if digits == 1 {
      assert n == lead;
    } else {
      assert PowTen(digits - 1) == 10 * PowTen(digits - 2);
      FirstDigit(n / 10, width - 1, digits - 1, lead);
    }
  }

  /** Every version and every audit record has a key of its own. */
  lemma {:induction false} KeysDistinct(v: nat, w: nat)
    ensures VersionSk(v) == VersionSk(w) <==> v == w
    ensures AuditSk(v) == AuditSk(w) <==> v == w
    ensures VersionSk(v) != AuditSk(w) && VersionSk(v) != CURRENT_SK && AuditSk(v) != CURRENT_SK
  {
    PaddedParse(v, VERSION_WIDTH);
    PaddedParse(w, VERSION_WIDTH);
    assert VersionSk(v)[2..] == Padded(v, VERSION_WIDTH) && VersionSk(w)[2..] == Padded(w, VERSION_WIDTH);
    assert AuditSk(v)[6..] == Padded(v, VERSION_WIDTH) && AuditSk(w)[6..] == Padded(w, VERSION_WIDTH);
    assert VersionSk(v)[0] == 'v' && AuditSk(w)[0] == 'a' && AuditSk(v)[0] == 'a' && CURRENT_SK[0] == 'c';
  }

  // ----- the index partition -----

  datatype LifecycleState = Reported | Validated | Active | Merged | Clearing | Cleared | Archived

  function StateName(s: LifecycleState): string {
    match s
    case Reported => "reported"
    case Validated => "validated"
    case Active => "active"
    case Merged => "merged"
    case Clearing => "clearing"
    case Cleared => "cleared"
    case Archived => "archived"
  }

  function GsiPartition(s: LifecycleState, route: string): string {
    StateName(s) + "#" + route
  }

  lemma {:induction false} HashComesLast(s: LifecycleState)
    ensures '#' !in StateName(s)
  {
  }

  /** State and route can be read back from the partition key, even for a route that
      contains the separator. */
  lemma {:induction false} PartitionsDistinct(s: LifecycleState, route: string, s': LifecycleState, route': string)
    ensures GsiPartition(s, route) == GsiPartition(s', route') <==> s == s' && route == route'
  {
    HashComesLast(s);
    HashComesLast(s');
    var a, b := StateName(s), StateName(s');
    var p, q := GsiPartition(s, route), GsiPartition(s', route');
    assert p[|a|] == '#' && q[|b|] == '#' && p[..|a|] == a && q[..|b|] == b;
    assert p[|a| + 1..] == route && q[|b| + 1..] == route';
    assert |a| < |b| ==> q[|a|] == b[|a|];
    assert |b| < |a| ==> p[|b|] == a[|b|];
    if p == q {
      assert a == b;
      NamesDistinct(s, s');
    }
  }

  lemma {:induction false} NamesDistinct(s: LifecycleState, s': LifecycleState)
    requires StateName(s) == StateName(s')
    ensures s == s'
  {
    var n := StateName(s');
    assert |StateName(s)| == |n|;
    assert StateName(s)[0] == n[0] && StateName(s)[|n| - 1] == n[|n| - 1];
  }

  /** A key is told by its prefix, and the number behind it is the version or the audit
      sequence. */
  lemma {:induction false} KeysRead(v: nat)
    ensures "v#" <= VersionSk(v) && Parse(DECIMAL, VersionSk(v)[2..]) == Some(v)
    ensures "audit#" <= AuditSk(v) && Parse(DECIMAL, AuditSk(v)[6..]) == Some(v)
  {
    PaddedParse(v, VERSION_WIDTH);
    assert VersionSk(v)[2..] == Padded(v, VERSION_WIDTH) && AuditSk(v)[6..] == Padded(v, VERSION_WIDTH);
  }

  /** Live events of a route are found under these keys. */
  lemma {:induction false} ActivePartition()
    ensures GsiPartition(Active, "I-40") == "active#I-40" && GsiPartition(Reported, "I-40") == "reported#I-40"
  {
  }
}
