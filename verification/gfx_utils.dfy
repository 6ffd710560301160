/** GfxUtils.java: colour parsing, nearest-colour requantisation and the
    brightness sort of a palette. */
module GfxUtils {

  import opened Arith
  import opened Results
  import opened Text
  import opened Pixels
  import opened Images

  // ---------------------------------------------------------------------
  // Colour parsing

  lemma Pow16Monotone(j: nat, k: nat)
    requires j <= k
    ensures Pow16(j) <= Pow16(k)
    decreases k
  {
    if j < k {
      Pow16Monotone(j, k - 1);
    }
  }

  /** The last six digits of a string of hexadecimal digits, or all of them if fewer. */
  function LastSixDigits(d: string): (r: string)
    requires AllHex(d)
    ensures AllHex(r) && |r| <= 6
    ensures HexValue(r) == HexValue(d) % TWO_POW_24
  {
    assert Pow16(6) == TWO_POW_24;
    if |d| > 6 then
      HexSuffixValue(d, 6);
      d[|d| - 6..]
    else
      Pow16Monotone(|d|, 6);
      d
  }

  /** `getColor`: drop every character that is not a hexadecimal digit, keep
      the last six digits, and read them as an opaque RGB colour. A string
      without hexadecimal digits fails, as `Color.decode("#")` does. */
  function GetColor(s: string): (r: Result<Argb>)
    ensures r.Failure? <==> |HexDigits(s)| == 0
    ensures r.Failure? ==> r.error == InvalidColor
    ensures r.Success? ==> Alpha(r.value) == 255
    ensures r.Success? ==> Rgb(r.value) == HexValue(HexDigits(s)) % TWO_POW_24
  {
    var d := HexDigits(s);
    if |d| == 0 then Failure(InvalidColor)
    else
      var v := HexValue(LastSixDigits(d));
      DivModUnique(0xFF00_0000 + v, TWO_POW_24, 255, v);
      Success(0xFF00_0000 + v)
  }

  /** The hex string of a pixel (as the colour extraction writes it) parses
      back to the same colour made opaque. */
  lemma GetColorOfHex(p: Argb)
    ensures GetColor(ToHex(p)) == Success(Opaque(p))
  {
    var s := ToHex(p);
    assert HexDigits(s) == s && |s| >= 1 by {
      assert AllHex(s);
    }
    var c := GetColor(s).value;
    assert Alpha(c) == 255 && Rgb(c) == Rgb(p);
    AlphaRgbDetermine(c, Opaque(p));
  }

  /** The outcome of `getColor` for each palette entry, in order. */
  function ParseEach(palette: seq<string>): (rs: seq<Result<Argb>>)
    ensures |rs| == |palette| && forall i | 0 <= i < |palette| :: rs[i] == GetColor(palette[i])
  {
    seq(|palette|, i requires 0 <= i < |palette| => GetColor(palette[i]))
  }

  /** Every colour of a palette, or the error of the first entry that does not parse. */
  function ParsePalette(palette: seq<string>): (r: Result<seq<Argb>>)
    ensures r.Failure? <==> exists i | 0 <= i < |palette| :: GetColor(palette[i]).Failure?
    ensures r.Failure? ==> r.error == InvalidColor
    ensures r.Success? ==> |r.value| == |palette|
    ensures r.Success? ==> forall i | 0 <= i < |palette| :: GetColor(palette[i]) == Success(r.value[i])
    ensures r.Success? ==> AllOpaque(r.value)
  {
    var r := AllSucceed(ParseEach(palette));
    assert r.Failure? ==> r.error == InvalidColor;
    r
  }

  // ---------------------------------------------------------------------
  // Nearest colour

  lemma SumOfSquaresZero(a: int, b: int, c: int)
    ensures a * a + b * b + c * c >= 0
    ensures a * a + b * b + c * c == 0 <==> a == 0 && b == 0 && c == 0
  {
    assert a * a >= 0 && b * b >= 0 && c * c >= 0;
    if a != 0 { assert a * a > 0; }
    if b != 0 { assert b * b > 0; }
    if c != 0 { assert c * c > 0; }
  }

  /** `colorDistance`, squared: the sum of the squared red, green and blue
      differences. Alpha is ignored; the distance is zero exactly for equal
      colours. Squaring is monotone on distances, so every comparison the
      source makes comes out the same. */
  function ColorDistance(p: Argb, q: Argb): (d: nat)
    ensures d == 0 <==> Rgb(p) == Rgb(q)
  {
    var dr, dg, db := Red(p) - Red(q), Green(p) - Green(q), Blue(p) - Blue(q);
    var d := dr * dr + dg * dg + db * db;
    assert d >= 0 && (d == 0 <==> dr == 0 && dg == 0 && db == 0) by {
      SumOfSquaresZero(dr, dg, db);
    }
    assert dr == 0 && dg == 0 && db == 0 <==> Rgb(p) == Rgb(q) by {
      SameChannelsIffSameRgb(p, q);
    }
    d
  }

  lemma ColorDistanceSymmetric(p: Argb, q: Argb)
    ensures ColorDistance(p, q) == ColorDistance(q, p)
  {
    var dr, dg, db := Red(p) - Red(q), Green(p) - Green(q), Blue(p) - Blue(q);
    assert dr * dr == (-dr) * (-dr);
    assert dg * dg == (-dg) * (-dg);
    assert db * db == (-db) * (-db);
  }

  lemma ColorDistanceIgnoresAlpha(p: Argb, q: Argb)
    ensures ColorDistance(p, q) == ColorDistance(Opaque(p), Opaque(q))
  {
  }

  /** `c` is the colour at position `k` of `colors`, no colour is closer to
      `p`, and every earlier colour is strictly farther. */
  predicate FirstNearestAt(p: Argb, colors: seq<Argb>, k: nat) {
    && k < |colors|
    && (forall j | 0 <= j < |colors| :: ColorDistance(p, colors[k]) <= ColorDistance(p, colors[j]))
    && (forall j | 0 <= j < k :: ColorDistance(p, colors[j]) > ColorDistance(p, colors[k]))
  }

  /** The palette loop of `convertImagePixelsToColorPal` from position i on:
      a colour replaces the best one so far only when it is strictly closer. */
  function NearestFrom(p: Argb, colors: seq<Argb>, i: nat, best: nat): (k: nat)
    requires best < i <= |colors|
    requires forall j | 0 <= j < i :: ColorDistance(p, colors[best]) <= ColorDistance(p, colors[j])
    requires forall j | 0 <= j < best :: ColorDistance(p, colors[j]) > ColorDistance(p, colors[best])
    ensures FirstNearestAt(p, colors, k)
    decreases |colors| - i
  {
    if i == |colors| then best
    else if ColorDistance(p, colors[i]) < ColorDistance(p, colors[best]) then NearestFrom(p, colors, i + 1, i)
    else NearestFrom(p, colors, i + 1, best)
  }

  /** Position of the first colour at minimal distance from `p`. The first
      entry always replaces the initial `Double.MAX_VALUE` distance. */
  function Nearest(p: Argb, colors: seq<Argb>): (k: nat)
    requires |colors| > 0
    ensures FirstNearestAt(p, colors, k)
  {
    NearestFrom(p, colors, 1, 0)
  }

  /** The first-nearest position is unique: it is what any correct search must return. */
  lemma FirstNearestUnique(p: Argb, colors: seq<Argb>, k: nat, m: nat)
    requires FirstNearestAt(p, colors, k) && FirstNearestAt(p, colors, m)
    ensures k == m
  {
    var dk, dm := ColorDistance(p, colors[k]), ColorDistance(p, colors[m]);
    assert dk <= dm && dm <= dk;
  }

  predicate AllOpaque(colors: seq<Argb>) {
    forall i | 0 <= i < |colors| :: Alpha(colors[i]) == 255
  }

  /** The new colour of one pixel: the first nearest palette colour, or the
      pixel itself made opaque when the palette is empty. */
  function Requantize(p: Argb, colors: seq<Argb>): (q: Argb)
    requires AllOpaque(colors)
    ensures Alpha(q) == 255
    ensures |colors| == 0 ==> q == Opaque(p)
    ensures |colors| > 0 ==> exists k: nat :: FirstNearestAt(p, colors, k) && colors[k] == q
  {
    if |colors| == 0 then Opaque(p) else colors[Nearest(p, colors)]
  }

  /** Every pixel of `img` replaced by its requantised colour. */
  function RequantizeImage(img: Image, colors: seq<Argb>): (out: Image)
    requires AllOpaque(colors)
    ensures out.width == img.width && out.height == img.height
    ensures forall y, x | 0 <= y < img.height && 0 <= x < img.width ::
      out.rows[y][x] == Requantize(img.rows[y][x], colors)
  {
    Raster(img.width, img.height, seq(img.height, y requires 0 <= y < img.height =>
      seq(img.width, x requires 0 <= x < img.width => Requantize(img.rows[y][x], colors))))
  }

  /** `convertImagePixelsToColorPal`: an image of the same size whose pixels
      are requantised to the palette. An entry without hexadecimal digits
      makes the whole conversion fail. */
  function ConvertImagePixelsToColorPal(img: Image, palette: seq<string>): (r: Result<Image>)
    ensures r.Failure? <==> exists i | 0 <= i < |palette| :: GetColor(palette[i]).Failure?
    ensures r.Failure? ==> r.error == InvalidColor
    ensures r.Success? ==> r.value.width == img.width && r.value.height == img.height
    ensures r.Success? ==> forall y, x | 0 <= y < img.height && 0 <= x < img.width ::
      Alpha(r.value.rows[y][x]) == 255
    ensures r.Success? && |palette| == 0 ==> forall y, x | 0 <= y < img.height && 0 <= x < img.width ::
      r.value.rows[y][x] == Opaque(img.rows[y][x])
  {
    var colors :- ParsePalette(palette);
    Success(RequantizeImage(img, colors))
  }

  /** With a non-empty palette, each converted pixel is the colour of the
      first palette entry at minimal distance from the original pixel. */
  lemma ConvertPicksFirstNearest(img: Image, palette: seq<string>, y: nat, x: nat)
    requires ConvertImagePixelsToColorPal(img, palette).Success? && |palette| > 0
    requires y < img.height && x < img.width
    ensures var colors := ParsePalette(palette).value;
      exists k: nat :: FirstNearestAt(img.rows[y][x], colors, k)
        && GetColor(palette[k]) == Success(ConvertImagePixelsToColorPal(img, palette).value.rows[y][x])
  {
    var colors := ParsePalette(palette).value;
    var p := img.rows[y][x];
    var q := Requantize(p, colors);
    assert ConvertImagePixelsToColorPal(img, palette).value.rows[y][x] == q;
    var k: nat :| FirstNearestAt(p, colors, k) && colors[k] == q;
    assert GetColor(palette[k]) == Success(q);
  }

  // ---------------------------------------------------------------------
  // Palette sorting

  predicate NoDuplicates<T(==)>(s: seq<T>) {
    forall i, j | 0 <= i < j < |s| :: s[i] != s[j]
  }

  /** The distinct elements of `s` in order of first occurrence. */
  function Distinct(s: seq<string>): (r: seq<string>)
    ensures NoDuplicates(r)
    ensures forall x :: x in r <==> x in s
  {
    if |s| == 0 then []
    else
      var d := Distinct(s[..|s| - 1]);
      assert forall x :: x in s <==> x in s[..|s| - 1] || x == s[|s| - 1];
      if s[|s| - 1] in d then d else d + [s[|s| - 1]]
  }

  /** The sort key of a palette entry: its brightness 299 R + 587 G + 114 B. */
  function SortKey(entry: string): nat {
    match GetColor(entry)
    case Success(c) => Luma(c)
    case Failure(_) => 0
  }

  predicate Ascending(s: seq<string>) {
    forall i, j | 0 <= i < j < |s| :: SortKey(s[i]) <= SortKey(s[j])
  }

  predicate Descending(s: seq<string>) {
    forall i, j | 0 <= i < j < |s| :: SortKey(s[i]) >= SortKey(s[j])
  }

  /** An entry of the name-to-brightness map. */
  datatype Entry = Entry(name: string, key: nat)

  predicate KeysAscending(s: seq<Entry>) {
    forall i, j | 0 <= i < j < |s| :: s[i].key <= s[j].key
  }

  /** Insert `e` after every entry whose key is not larger (keeps equal keys in order). */
  function InsertEntry(e: Entry, s: seq<Entry>): (r: seq<Entry>)
    ensures multiset(r) == multiset(s) + multiset{e}
  {
    if |s| == 0 then [e]
    else if e.key < s[0].key then [e] + s
    else
      var rest := InsertEntry(e, s[1..]);
      assert multiset(s) == multiset{s[0]} + multiset(s[1..]) by {
        assert s == [s[0]] + s[1..];
      }
      [s[0]] + rest
  }

  /** Inserting into ascending entries keeps them ascending. */
  lemma {:induction false} InsertEntrySorted(e: Entry, s: seq<Entry>)
    requires KeysAscending(s)
    ensures KeysAscending(InsertEntry(e, s))
  {
    if |s| > 0 {
      if e.key < s[0].key {
        assert forall i | 0 <= i < |s| :: e.key <= s[i].key;
        AscendingCons(e, s);
      } else {
        var rest := InsertEntry(e, s[1..]);
        assert KeysAscending(rest) by {
          AscendingTail(s);
          InsertEntrySorted(e, s[1..]);
        }
        InsertKeepsLowerBound(s, e, rest);
      }
    }
  }

  lemma AscendingTail(s: seq<Entry>)
    requires KeysAscending(s) && |s| > 0
    ensures KeysAscending(s[1..])
  {
  }

  /** An entry no larger than every key, in front of ascending entries, keeps them ascending. */
  lemma AscendingCons(first: Entry, s: seq<Entry>)
    requires KeysAscending(s) && forall i | 0 <= i < |s| :: first.key <= s[i].key
    ensures KeysAscending([first] + s)
  {
    var t := [first] + s;
    forall i, j | 0 <= i < j < |t|
      ensures t[i].key <= t[j].key
    {
      if i > 0 {
        assert t[i] == s[i - 1] && t[j] == s[j - 1];
      } else {
        assert t[j] == s[j - 1];
      }
    }
  }

  /** The head of ascending entries stays a lower bound after inserting a larger entry into the tail. */
  lemma InsertKeepsLowerBound(s: seq<Entry>, e: Entry, r: seq<Entry>)
    requires |s| > 0 && KeysAscending(s) && s[0].key <= e.key
    requires KeysAscending(r) && multiset(r) == multiset(s[1..]) + multiset{e}
    ensures KeysAscending([s[0]] + r)
  {
    forall i | 0 <= i < |r|
      ensures s[0].key <= r[i].key
    {
      assert r[i] in multiset(r);
      if r[i] != e {
        assert r[i] in multiset(s[1..]);
        var j :| 0 <= j < |s[1..]| && s[1..][j] == r[i];
        assert s[j + 1] == r[i];
      }
    }
    AscendingCons(s[0], r);
  }

  /** `List.sort(Map.Entry.comparingByValue())`: ascending by key, a permutation of the input. */
  function SortEntries(s: seq<Entry>): (r: seq<Entry>)
    ensures KeysAscending(r)
    ensures multiset(r) == multiset(s)
  {
    if |s| == 0 then []
    else
      assert s == s[..|s| - 1] + [s[|s| - 1]];
      var sorted := SortEntries(s[..|s| - 1]);
      InsertEntrySorted(s[|s| - 1], sorted);
      InsertEntry(s[|s| - 1], sorted)
  }

  /** Each name paired with its brightness. */
  function Keyed(names: seq<string>): (r: seq<Entry>)
    ensures |r| == |names|
    ensures forall i | 0 <= i < |names| :: r[i] == Entry(names[i], SortKey(names[i]))
  {
    seq(|names|, i requires 0 <= i < |names| => Entry(names[i], SortKey(names[i])))
  }

  predicate ConsistentKeys(s: seq<Entry>) {
    forall i | 0 <= i < |s| :: s[i].key == SortKey(s[i].name)
  }

  /** The names of the entries, in order. */
  function Names(s: seq<Entry>): (r: seq<string>)
    ensures |r| == |s|
    ensures forall i | 0 <= i < |s| :: r[i] == s[i].name
  {
    seq(|s|, i requires 0 <= i < |s| => s[i].name)
  }

  lemma KeyedFacts(names: seq<string>)
    ensures ConsistentKeys(Keyed(names))
    ensures NoDuplicates(names) ==> NoDuplicates(Keyed(names))
    ensures forall e :: e in names <==> exists i | 0 <= i < |names| :: Keyed(names)[i].name == e
  {
    var keyed := Keyed(names);
    if NoDuplicates(names) {
      forall i, j | 0 <= i < j < |keyed|
        ensures keyed[i] != keyed[j]
      {
        assert keyed[i].name == names[i] && keyed[j].name == names[j];
      }
    }
  }

  /** A permutation of consistently keyed entries is consistently keyed. */
  lemma PermutationKeepsConsistentKeys(s: seq<Entry>, t: seq<Entry>)
    requires ConsistentKeys(s) && multiset(s) == multiset(t)
    ensures ConsistentKeys(t)
    ensures forall e :: e in t <==> e in s
  {
    forall e ensures e in t <==> e in s {
      assert e in t <==> e in multiset(t);
      assert e in s <==> e in multiset(s);
    }
    forall i | 0 <= i < |t|
      ensures t[i].key == SortKey(t[i].name)
    {
      assert t[i] in s;
    }
  }

  /** Distinct, consistently keyed entries in key order have distinct names in brightness order. */
  lemma ConsistentNames(s: seq<Entry>)
    requires ConsistentKeys(s) && NoDuplicates(s) && KeysAscending(s)
    ensures NoDuplicates(Names(s)) && Ascending(Names(s))
  {
    var r := Names(s);
    forall i, j | 0 <= i < j < |r|
      ensures r[i] != r[j] && SortKey(r[i]) <= SortKey(r[j])
    {
      assert s[i] != s[j];
    }
  }

  /** Sorting keyed distinct names keeps the names distinct and puts them in brightness order. */
  lemma SortedNames(names: seq<string>)
    requires NoDuplicates(names)
    ensures var sorted := SortEntries(Keyed(names));
      && NoDuplicates(Names(sorted))
      && Ascending(Names(sorted))
      && forall e :: e in Names(sorted) <==> e in names
  {
    var keyed := Keyed(names);
    var sorted := SortEntries(keyed);
    assert ConsistentKeys(sorted) && NoDuplicates(sorted) by {
      KeyedFacts(names);
      PermutationKeepsConsistentKeys(keyed, sorted);
      PermutationKeepsNoDuplicates(keyed, sorted);
    }
    ConsistentNames(sorted);
    NamesOfPermutation(names, sorted);
  }

  /** A permutation of the keyed names carries exactly the names. */
  lemma NamesOfPermutation(names: seq<string>, sorted: seq<Entry>)
    requires multiset(sorted) == multiset(Keyed(names))
    ensures forall e :: e in Names(sorted) <==> e in names
  {
    var keyed := Keyed(names);
    var r := Names(sorted);
    forall e ensures e in r <==> e in names {
      if e in names {
        var i :| 0 <= i < |names| && names[i] == e;
        assert keyed[i] in multiset(sorted);
        var j :| 0 <= j < |sorted| && sorted[j] == keyed[i];
        assert r[j] == e;
      }
      if e in r {
        var j :| 0 <= j < |r| && r[j] == e;
        assert sorted[j] in multiset(keyed);
        var i :| 0 <= i < |keyed| && keyed[i] == sorted[j];
        assert names[i] == e;
      }
    }
  }

  function Reverse<T>(s: seq<T>): (r: seq<T>)
    ensures |r| == |s|
  {
    seq(|s|, i requires 0 <= i < |s| => s[|s| - 1 - i])
  }

  /** Reversing keeps the elements, keeps them distinct and turns an ascending order into a descending one. */
  lemma ReverseProperties(s: seq<string>)
    ensures forall e :: e in Reverse(s) <==> e in s
    ensures NoDuplicates(s) ==> NoDuplicates(Reverse(s))
    ensures Ascending(s) ==> Descending(Reverse(s))
  {
    var r := Reverse(s);
    forall e | e in s ensures e in r {
      var i :| 0 <= i < |s| && s[i] == e;
      assert r[|s| - 1 - i] == e;
    }
  }

  lemma NoDuplicatesCount<T>(s: seq<T>, x: T)
    requires NoDuplicates(s)
    ensures multiset(s)[x] <= 1
  {
    if |s| > 0 {
      var t := s[..|s| - 1];
      assert s == t + [s[|s| - 1]];
      NoDuplicatesCount(t, x);
      if x == s[|s| - 1] {
        assert x !in t;
      }
    }
  }

  /** A permutation of a sequence without duplicates has none either. */
  lemma PermutationKeepsNoDuplicates<T>(s: seq<T>, t: seq<T>)
    requires NoDuplicates(s) && multiset(s) == multiset(t)
    ensures NoDuplicates(t)
  {
    forall i, j | 0 <= i < j < |t|
      ensures t[i] != t[j]
    {
      if t[i] == t[j] {
        var x := t[i];
        assert t == t[..j] + [t[j]] + t[j + 1..];
        assert x in t[..j];
        assert multiset(t)[x] >= 2;
        NoDuplicatesCount(s, x);
      }
    }
  }

  /** The entries as `strip()` leaves them. */
  function StripAll(palette: seq<string>): (r: seq<string>)
    ensures |r| == |palette|
    ensures forall i | 0 <= i < |palette| :: r[i] == Strip(palette[i])
  {
    seq(|palette|, i requires 0 <= i < |palette| => Strip(palette[i]))
  }

  predicate AllParse(names: seq<string>) {
    forall i | 0 <= i < |names| :: GetColor(names[i]).Success?
  }

  /** The distinct names sorted darkest first. */
  function AscendingNames(names: seq<string>): (r: seq<string>)
    ensures NoDuplicates(r) && Ascending(r)
    ensures forall e :: e in r <==> e in names
  {
    var distinct := Distinct(names);
    SortedNames(distinct);
    Names(SortEntries(Keyed(distinct)))
  }

  /** `getSortedColorPalet`: every distinct stripped entry exactly once,
      brightest first, or darkest first when `reverse` is set. Fails when an
      entry does not parse. */
  function GetSortedColorPalet(palette: seq<string>, reverse: bool): (r: Result<seq<string>>)
    ensures r.Failure? <==> exists i | 0 <= i < |palette| :: GetColor(Strip(palette[i])).Failure?
    ensures r.Failure? ==> r.error == PaletteParseError
    ensures r.Success? ==> NoDuplicates(r.value)
    ensures r.Success? ==> forall e :: e in r.value <==> e in StripAll(palette)
    ensures r.Success? && reverse ==> Ascending(r.value)
    ensures r.Success? && !reverse ==> Descending(r.value)
  {
    var names := StripAll(palette);
    if !AllParse(names) then Failure(PaletteParseError)
    else
      var ascending := AscendingNames(names);
      ReverseProperties(ascending);
      Success(if reverse then ascending else Reverse(ascending))
  }

  /** The default order is exactly the reverse of the `reverse` order. */
  lemma SortedPaletteReversed(palette: seq<string>)
    ensures GetSortedColorPalet(palette, false).Success? == GetSortedColorPalet(palette, true).Success?
    ensures GetSortedColorPalet(palette, true).Success? ==>
      GetSortedColorPalet(palette, false).value == Reverse(GetSortedColorPalet(palette, true).value)
  {
  }
}
