/** How the archiver names what it stages: every archived file goes into a
    partition named after the year and the zero-padded month of its last
    access (`2024/03`), and each staged file is reported as a record pairing
    its key inside the archive with its path on disk. */
module ArchiveKeys {
  import opened Paths
  import opened Disk

  /** One staged file: the key it is stored under and the path it lies at. */
  datatype ArchiveKey = ArchiveKey(key: string, path: string)

  predicate IsDigits(s: string) {
    forall i :: 0 <= i < |s| ==> '0' <= s[i] <= '9'
  }

  function Digit(d: nat): (ch: char)
    requires d < 10
    ensures '0' <= ch <= '9' && ch as int - '0' as int == d
  {
    ('0' as int + d) as char
  }

  /** `int(s)` for a string of decimal digits (the empty string counts 0). */
  function DecimalValue(s: string): nat
    requires IsDigits(s)
    decreases |s|
  {
    if s == [] then 0 else 10 * DecimalValue(s[..|s| - 1]) + (s[|s| - 1] as int - '0' as int)
  }

  /** `str(n)`: the decimal digits of `n`, most significant first. */
  function DecimalString(n: nat): (s: string)
    ensures |s| >= 1 && IsDigits(s)
    ensures |s| > 1 ==> s[0] != '0'
    ensures n < 10 <==> |s| == 1
    decreases n
  {
    if n < 10 then [Digit(n)] else DecimalString(n / 10) + [Digit(n % 10)]
  }

  /** Reading the digits back gives the number. */
  lemma {:induction false} DecimalRoundTrip(n: nat)
    ensures DecimalValue(DecimalString(n)) == n
    decreases n
  {
    if n >= 10 {
      DecimalRoundTrip(n / 10);
      var s := DecimalString(n);
      assert s[..|s| - 1] == DecimalString(n / 10);
    }
  }

  /** `n` zero digits. */
  function Zeros(n: nat): (z: string)
    ensures |z| == n && forall i :: 0 <= i < n ==> z[i] == '0'
  {
    seq(n, _ => '0')
  }

  /** `s.zfill(width)` for a string of digits: zeros in front until it is
      `width` long; a string already that long is unchanged. */
  function ZFill(s: string, width: nat): (r: string)
    ensures |s| >= width ==> r == s
    ensures |s| < width ==> |r| == width
    ensures r[|r| - |s|..] == s
    ensures forall i :: 0 <= i < |r| - |s| ==> r[i] == '0'
  {
    if |s| >= width then s else Zeros(width - |s|) + s
  }

  /** A zero in front does not change the value of a string of digits. */
  lemma {:induction false} LeadingZero(s: string)
    requires IsDigits(s)
    ensures IsDigits("0" + s) && DecimalValue("0" + s) == DecimalValue(s)
    decreases |s|
  {
    if s != [] {
      var s0 := s[..|s| - 1];
      LeadingZero(s0);
      assert ("0" + s)[..|s|] == "0" + s0;
    }
  }

  /** Any number of zeros in front leaves the value alone. */
  lemma {:induction false} LeadingZeros(n: nat, s: string)
    requires IsDigits(s)
    ensures IsDigits(Zeros(n) + s) && DecimalValue(Zeros(n) + s) == DecimalValue(s)
    decreases n
  {
    if n > 0 {
      LeadingZeros(n - 1, s);
      LeadingZero(Zeros(n - 1) + s);
      assert Zeros(n) + s == "0" + (Zeros(n - 1) + s);
    } else {
      assert Zeros(n) + s == s;
    }
  }

  /** Zero-padding keeps the digits and their value. */
  lemma ZFillValue(s: string, width: nat)
    requires IsDigits(s)
    ensures IsDigits(ZFill(s, width)) && DecimalValue(ZFill(s, width)) == DecimalValue(s)
  {
    if |s| < width {
      LeadingZeros(width - |s|, s);
    }
  }

  /** The two directory names of a partition: the year, then the month on two digits. */
  function PartitionNames(year: nat, month: Month): Path {
    [DecimalString(year), ZFill(DecimalString(month), 2)]
  }

  /** `os.path.join(str(year), str(month).zfill(2))`. */
  function PartitionKey(year: nat, month: Month): string {
    Join(DecimalString(year), ZFill(DecimalString(month), 2))
  }

  lemma DigitsAreValidName(s: string)
    requires |s| >= 1 && IsDigits(s)
    ensures ValidName(s)
  {
    assert forall ch :: ch in s ==> '0' <= ch <= '9';
    assert s[0] != '.';
  }

  /** A partition key is two valid names joined by one separator: the year
      and the month on exactly two digits. */
  lemma PartitionKeyNames(year: nat, month: Month)
    ensures ValidNames(PartitionNames(year, month))
    ensures |PartitionNames(year, month)[1]| == 2
    ensures PartitionKey(year, month) == JoinAll(PartitionNames(year, month))
    ensures Split(PartitionKey(year, month)) == PartitionNames(year, month)
  {
    var y := DecimalString(year);
    var m := ZFill(DecimalString(month), 2);
    ZFillValue(DecimalString(month), 2);
    DigitsAreValidName(y);
    DigitsAreValidName(m);
    TwoNames(y, m);
  }

  /** Two names: `os.path.join` of them is their `"/".join`, which splits back
      into the two. */
  lemma TwoNames(y: string, m: string)
    requires ValidName(y) && ValidName(m)
    ensures ValidNames([y, m])
    ensures Join(y, m) == JoinAll([y, m])
    ensures Split(Join(y, m)) == [y, m]
  {
    assert y[|y| - 1] in y;
    assert m[0] in m;
    assert [y, m][..1] == [y];
    SplitJoinAll([y, m]);
  }

  /** The partition key reads back as the year and the month it was made from. */
  lemma PartitionKeyParses(year: nat, month: Month)
    ensures |Split(PartitionKey(year, month))| == 2
    ensures IsDigits(Split(PartitionKey(year, month))[0]) && IsDigits(Split(PartitionKey(year, month))[1])
    ensures DecimalValue(Split(PartitionKey(year, month))[0]) == year
    ensures DecimalValue(Split(PartitionKey(year, month))[1]) == month
  {
    PartitionKeyNames(year, month);
    DecimalRoundTrip(year);
    DecimalRoundTrip(month);
    ZFillValue(DecimalString(month), 2);
  }

  /** Different months of access never share a partition. */
  lemma PartitionKeyInjective(y1: nat, m1: Month, y2: nat, m2: Month)
    requires PartitionKey(y1, m1) == PartitionKey(y2, m2)
    ensures y1 == y2 && m1 == m2
  {
    PartitionKeyParses(y1, m1);
    PartitionKeyParses(y2, m2);
  }

  /** A file last read in March 2024 goes to `2024/03`. */
  lemma PartitionKeyMarch2024()
    ensures PartitionKey(2024, 3) == "2024/03"
  {
    YearDigits();
    MarchDigits();
  }

  /** One read in November 2023 goes to `2023/11`: a two-digit month is not padded. */
  lemma PartitionKeyNovember2023()
    ensures PartitionKey(2023, 11) == "2023/11"
  {
    YearDigits();
    NovemberDigits();
  }

  lemma YearDigits()
    ensures DecimalString(2024) == "2024" && DecimalString(2023) == "2023"
  {
    assert DecimalString(2) == "2";
    assert DecimalString(20) == "20";
    assert DecimalString(202) == "202";
  }

  lemma MarchDigits()
    ensures ZFill(DecimalString(3), 2) == "03"
  {
    assert DecimalString(3) == "3";
  }

  lemma NovemberDigits()
    ensures ZFill(DecimalString(11), 2) == "11"
  {
    assert DecimalString(1) == "1";
  }

  /** `_create_archive_key(path)`: the partition of the file at `path`, named
      after the year and month of its last access. */
  function CreateArchiveKey(fs: FileSystem, path: string): (key: string)
    reads fs
    requires IsFile(fs.nodes, Resolve(fs.cwd, path))
    ensures Split(key) == PartitionNames(fs.nodes[Resolve(fs.cwd, path)].year, fs.nodes[Resolve(fs.cwd, path)].month)
    ensures |Split(key)| == 2 && ValidNames(Split(key)) && |Split(key)[1]| == 2
    ensures IsDigits(Split(key)[0]) && DecimalValue(Split(key)[0]) == fs.nodes[Resolve(fs.cwd, path)].year
    ensures IsDigits(Split(key)[1]) && DecimalValue(Split(key)[1]) == fs.nodes[Resolve(fs.cwd, path)].month
  {
    var node := fs.nodes[Resolve(fs.cwd, path)];
    PartitionKeyNames(node.year, node.month);
    PartitionKeyParses(node.year, node.month);
    PartitionKey(node.year, node.month)
  }
}
