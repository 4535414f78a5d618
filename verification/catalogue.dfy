/** The fixed list of door serials, lookup in it, the search filter over it
    and the image URL template built from a serial. */
module Catalogue {
  import opened Wrappers
  import Text

  /** The catalogue as the script builds it: nineteen serials `vmk` + the
      number 1..19 padded to two digits, then nine serials `vmk10` + 1..9. */
  function Serials(): (serials: seq<string>)
    ensures |serials| == Count
  {
    seq(19, i requires 0 <= i < 19 => PaddedSerial(i)) + seq(9, i requires 0 <= i < 9 => HundredSerial(i))
  }

  /** `vmk` followed by `i + 1` padded to two digits. */
  function PaddedSerial(i: nat): string {
    "vmk" + Text.PadStart(Text.NatToString(i + 1), 2, '0')
  }

  /** `vmk10` followed by `i + 1`. */
  function HundredSerial(i: nat): string {
    "vmk10" + Text.NatToString(i + 1)
  }

  const Count: int := 28

  /** The number a catalogue position carries in its serial. */
  function NumberAt(i: nat): nat {
    if i < 19 then i + 1 else i + 82
  }

  /** The number spelled after the `vmk` prefix of a serial-shaped string. */
  function SerialNumber(s: string): Option<nat> {
    if 3 < |s| && s[..3] == "vmk" && Text.IsDigits(s[3..])
    then Some(Text.ParseDecimal(s[3..]))
    else None
  }

  lemma HundredsSpelling(k: nat)
    requires 1 <= k <= 9
    ensures Text.NatToString(100 + k) == "10" + Text.NatToString(k)
  {
    assert Text.NatToString(1) == "1";
    assert Text.NatToString(10) == "10";
    assert Text.NatToString(100 + k) == Text.NatToString(10) + [Text.DigitChar(k)];
  }

  /** Every serial is `vmk` followed by its number, zero-padded to two
      digits: one uniform rule for both halves of the list. */
  lemma SerialShape(i: nat)
    requires i < |Serials()|
    ensures |Serials()| == Count
    ensures Serials()[i] == "vmk" + Text.PadStart(Text.NatToString(NumberAt(i)), 2, '0')
  {
    if i < 19 {
      assert Serials()[i] == PaddedSerial(i);
    } else {
      assert Serials()[i] == HundredSerial(i - 19);
      HundredsSpelling(i - 18);
    }
  }

  /** Reading the number back out of a serial gives its position's number. */
  lemma SerialNumberAt(i: nat)
    requires i < |Serials()|
    ensures SerialNumber(Serials()[i]) == Some(NumberAt(i))
  {
    SerialShape(i);
    var digits := Text.PadStart(Text.NatToString(NumberAt(i)), 2, '0');
    Text.ZeroPaddingKeepsValue(NumberAt(i), 2);
    assert Serials()[i][3..] == digits;
    assert Serials()[i][..3] == "vmk";
  }

  lemma CatalogueNumbered()
    ensures forall i :: 0 <= i < |Serials()| ==> SerialNumber(Serials()[i]) == Some(NumberAt(i))
  {
    forall i | 0 <= i < |Serials()|
      ensures SerialNumber(Serials()[i]) == Some(NumberAt(i))
    {
      SerialNumberAt(i);
    }
  }

  /** The serials are listed in increasing order of their numbers. */
  lemma CatalogueOrdered()
    ensures forall i, j :: 0 <= i < j < |Serials()| ==>
      SerialNumber(Serials()[i]).Some? && SerialNumber(Serials()[j]).Some? &&
      SerialNumber(Serials()[i]).value < SerialNumber(Serials()[j]).value
  {
    CatalogueNumbered();
  }

  /** No serial appears twice. */
  lemma CatalogueDistinct()
    ensures forall i, j :: 0 <= i < j < |Serials()| ==> Serials()[i] != Serials()[j]
  {
    CatalogueOrdered();
  }

  /** The numbers the serials carry are exactly 1..19 and 101..109. */
  lemma CatalogueNumbers(n: nat)
    ensures (exists i :: 0 <= i < |Serials()| && SerialNumber(Serials()[i]) == Some(n))
      <==> (1 <= n <= 19 || 101 <= n <= 109)
  {
    if 1 <= n <= 19 || 101 <= n <= 109 {
      var i := if n <= 19 then n - 1 else n - 82;
      SerialNumberAt(i);
    }
    if i :| 0 <= i < |Serials()| && SerialNumber(Serials()[i]) == Some(n) {
      SerialNumberAt(i);
    }
  }

  /** A one-digit number padded to two digits: a `0`, then its digit. */
  lemma PaddedSpelling(i: nat)
    requires i < 9
    ensures PaddedSerial(i) == "vmk0" + [Text.DigitChar(i + 1)]
  {
  }

  /** A two-digit number below twenty: a `1`, then its last digit. */
  lemma TeenSpelling(i: nat)
    requires 9 <= i < 19
    ensures PaddedSerial(i) == "vmk1" + [Text.DigitChar(i - 9)]
  {
    assert Text.NatToString(1) == [Text.DigitChar(1)];
    assert Text.NatToString(i + 1) == Text.NatToString(1) + [Text.DigitChar(i - 9)];
  }

  /** The spellings behind the sample positions, without the list. */
  lemma SampleSpellings()
    ensures PaddedSerial(0) == "vmk01" && PaddedSerial(4) == "vmk05" && PaddedSerial(9) == "vmk10"
    ensures PaddedSerial(18) == "vmk19" && HundredSerial(0) == "vmk101" && HundredSerial(8) == "vmk109"
  {
    PaddedSpelling(0);
    PaddedSpelling(4);
    TeenSpelling(9);
    TeenSpelling(18);
    assert Text.NatToString(1) == [Text.DigitChar(1)];
    assert Text.NatToString(9) == [Text.DigitChar(9)];
  }

  /** The first, fifth, tenth and last few serials, spelled out. */
  lemma CatalogueSamples()
    ensures Serials()[0] == "vmk01" && Serials()[4] == "vmk05" && Serials()[9] == "vmk10"
    ensures Serials()[18] == "vmk19" && Serials()[19] == "vmk101" && Serials()[27] == "vmk109"
  {
    SampleSpellings();
    assert Serials()[0] == PaddedSerial(0) && Serials()[4] == PaddedSerial(4) && Serials()[9] == PaddedSerial(9);
    assert Serials()[18] == PaddedSerial(18) && Serials()[19] == HundredSerial(0) && Serials()[27] == HundredSerial(8);
  }

  /** `xs.indexOf(x)`: the first position holding `x`, or -1. */
  function IndexOf(xs: seq<string>, x: string): (r: int)
    ensures -1 <= r < |xs|
    ensures r == -1 <==> x !in xs
    ensures 0 <= r ==> xs[r] == x && x !in xs[..r]
  {
    if |xs| == 0 then -1
    else if xs[0] == x then 0
    else
      var k := IndexOf(xs[1..], x);
      assert xs[1..] == xs[..|xs|][1..];
      if k == -1 then -1
      else
        assert xs[..k + 1] == [xs[0]] + xs[1..][..k];
        k + 1
  }

  /** In the catalogue, whose entries are distinct, looking a serial up
      finds exactly the position it sits at. */
  lemma IndexOfSerial(i: nat)
    requires i < |Serials()|
    ensures IndexOf(Serials(), Serials()[i]) == i
  {
    CatalogueDistinct();
  }

  /** `xs.filter(x => x.includes(t))`. */
  function KeepIncluding(xs: seq<string>, t: string): (r: seq<string>)
    ensures |r| <= |xs|
    ensures forall x :: x in r ==> x in xs && Text.Includes(x, t)
    ensures forall x :: x in xs && Text.Includes(x, t) ==> x in r
    ensures forall x :: multiset(r)[x] == if Text.Includes(x, t) then multiset(xs)[x] else 0
  {
    if |xs| == 0 then []
    else
      var rest := KeepIncluding(xs[1..], t);
      assert xs == [xs[0]] + xs[1..];
      if Text.Includes(xs[0], t) then [xs[0]] + rest else rest
  }

  /** `a` is `b` with some entries dropped and the rest kept in order. */
  ghost predicate IsSubsequence(a: seq<string>, b: seq<string>)
    decreases |b|
  {
    if |a| == 0 then true
    else if |b| == 0 then false
    else if a[0] == b[0] then IsSubsequence(a[1..], b[1..])
    else IsSubsequence(a, b[1..])
  }

  /** The filter keeps the order of its input. */
  lemma {:induction false} KeepIncludingIsSubsequence(xs: seq<string>, t: string)
    ensures IsSubsequence(KeepIncluding(xs, t), xs)
    decreases |xs|
  {
    if |xs| > 0 {
      KeepIncludingIsSubsequence(xs[1..], t);
      var rest := KeepIncluding(xs[1..], t);
      if Text.Includes(xs[0], t) {
        assert ([xs[0]] + rest)[1..] == rest;
      }
    }
  }

  /** A filter every entry passes returns its input unchanged. */
  lemma {:induction false} KeepIncludingAll(xs: seq<string>, t: string)
    requires forall x :: x in xs ==> Text.Includes(x, t)
    ensures KeepIncluding(xs, t) == xs
    decreases |xs|
  {
    if |xs| > 0 {
      var rest := xs[1..];
      assert xs == [xs[0]] + rest;
      assert Text.Includes(xs[0], t);
      KeepIncludingAll(rest, t);
    }
  }

  /** The search box: the term is lower-cased, then the catalogue is
      filtered to the serials containing it. */
  function Search(term: string): (r: seq<string>)
    ensures |r| <= Count
    ensures forall x :: x in r <==> x in Serials() && Text.Includes(x, Text.Lower(term))
  {
    KeepIncluding(Serials(), Text.Lower(term))
  }

  /** The search result is the catalogue with some serials dropped, in
      catalogue order, and an empty search term shows the whole catalogue. */
  lemma SearchKeepsOrder(term: string)
    ensures IsSubsequence(Search(term), Serials())
    ensures term == "" ==> Search(term) == Serials()
  {
    KeepIncludingIsSubsequence(Serials(), Text.Lower(term));
    if term == "" {
      forall x | x in Serials()
        ensures Text.Includes(x, Text.Lower(term))
      {
        Text.EmptyIsIncluded(x);
      }
      KeepIncludingAll(Serials(), Text.Lower(term));
    }
  }

  lemma NumberSpellingLength(n: nat)
    requires 1 <= n < 100
    ensures |Text.NatToString(n)| == if n < 10 then 1 else 2
  {
    if 10 <= n {
      assert Text.NatToString(n) == Text.NatToString(n / 10) + [Text.DigitChar(n % 10)];
    }
  }

  /** In a five-character serial, "10" can only sit in the digits. */
  lemma TenInShortSerial(x: string, p: int)
    requires |x| == 5 && x[..3] == "vmk"
    requires Text.OccursAt(x, "10", p)
    ensures x[3..] == "10"
  {
    assert x[p] == '1';
  }

  /** A two-digit serial other than `vmk10` does not contain "10": its
      five characters leave room for "10" only in the digits, and those
      spell a number other than ten. */
  lemma PaddedSerialWithoutTen(i: nat)
    requires i < 19 && i != 9
    ensures !Text.Includes(PaddedSerial(i), "10")
  {
    var digits := Text.PadStart(Text.NatToString(i + 1), 2, '0');
    var x := PaddedSerial(i);
    NumberSpellingLength(i + 1);
    Text.ZeroPaddingKeepsValue(i + 1, 2);
    assert |x| == 5 && x[..3] == "vmk" && x[3..] == digits;
    Text.IncludesMeansOccurs(x, "10");
    if p :| Text.OccursAt(x, "10", p) {
      TenInShortSerial(x, p);
      assert false;
    }
  }

  /** `vmk10` contains "10". */
  lemma PaddedSerialTen()
    ensures PaddedSerial(9) == "vmk10" && Text.Includes(PaddedSerial(9), "10")
  {
    var x := PaddedSerial(9);
    TeenSpelling(9);
    assert x == "vmk10";
    Text.IncludesMeansOccurs(x, "10");
    assert x[3..5] == "10";
    assert Text.OccursAt(x, "10", 3);
  }

  /** Of the two-digit serials, only `vmk10` contains "10". */
  lemma TwoDigitSerialContainsTen(i: nat)
    requires i < 19
    ensures Text.Includes(Serials()[i], "10") <==> i == 9
  {
    assert Serials()[i] == PaddedSerial(i);
    if i == 9 {
      PaddedSerialTen();
    } else {
      PaddedSerialWithoutTen(i);
    }
  }

  /** Every three-digit serial contains "10". */
  lemma HundredSerialContainsTen(i: nat)
    requires 19 <= i < Count
    ensures Text.Includes(Serials()[i], "10")
  {
    var x := Serials()[i];
    assert x == HundredSerial(i - 19);
    Text.IncludesMeansOccurs(x, "10");
    assert Text.OccursAt(x, "10", 3);
  }

  /** Searching for "10" finds `vmk10` and the nine serials `vmk101` to
      `vmk109`, and nothing else. */
  lemma SearchTen()
    ensures forall i :: 0 <= i < Count ==> (Serials()[i] in Search("10") <==> i == 9 || 19 <= i)
  {
    assert Text.Lower("10") == "10";
    forall i | 0 <= i < Count
      ensures Serials()[i] in Search("10") <==> i == 9 || 19 <= i
    {
      if i < 19 {
        TwoDigitSerialContainsTen(i);
      } else {
        HundredSerialContainsTen(i);
      }
    }
  }

  /** The first result of searching for "10" is `vmk10`. */
  lemma SearchTenFirst()
    ensures |Search("10")| >= 1 && Search("10")[0] == "vmk10"
  {
    assert Text.Lower("10") == "10";
    forall i | 0 <= i < 9
      ensures !Text.Includes(Serials()[i], "10")
    {
      TwoDigitSerialContainsTen(i);
    }
    var xs := Serials();
    KeepIncludingSkips(xs, "10", 9);
    TwoDigitSerialContainsTen(9);
    var tail := xs[9..];
    assert tail[0] == xs[9];
    assert KeepIncluding(tail, "10") == [xs[9]] + KeepIncluding(tail[1..], "10");
    assert xs[9] == PaddedSerial(9);
    PaddedSerialTen();
  }

  /** Entries at the front that the filter drops do not affect the rest. */
  lemma {:induction false} KeepIncludingSkips(xs: seq<string>, t: string, j: nat)
    requires j <= |xs|
    requires forall i :: 0 <= i < j ==> !Text.Includes(xs[i], t)
    ensures KeepIncluding(xs, t) == KeepIncluding(xs[j..], t)
    decreases j
  {
    if j > 0 {
      KeepIncludingSkips(xs[1..], t, j - 1);
      assert xs[1..][j - 1..] == xs[j..];
    }
  }

  const ImageHost: string := "https://ik.imagekit.io/TeakBlendDoors/"
  const ImageExtension: string := ".webp"

  /** The image URL for a serial. */
  function ImageUrl(serial: string): (url: string)
    ensures |url| == |ImageHost| + |serial| + |ImageExtension|
    ensures url[..|ImageHost|] == ImageHost
    ensures url[|ImageHost|..|url| - |ImageExtension|] == serial
    ensures url[|url| - |ImageExtension|..] == ImageExtension
  {
    ImageHost + serial + ImageExtension
  }

  /** Different serials get different image URLs. */
  lemma ImageUrlInjective(a: string, b: string)
    requires ImageUrl(a) == ImageUrl(b)
    ensures a == b
  {
    var u := ImageUrl(a);
    assert a == u[|ImageHost|..|u| - |ImageExtension|];
  }
}
