/** The three lookup tables behind the derived columns: country code to
    country name, price range to price tier, rating colour to colour name. */
module Lookups {
  import opened Values
  import opened Seqs

  /** `COUNTRIES`: the fifteen country codes of the dataset and their names,
      spelt as the dashboard spells them. */
  const Countries: map<int, string> := map[
    1 := "India",
    14 := "Australia",
    30 := "Brazil",
    37 := "Canada",
    94 := "Indonesia",
    148 := "New Zeland",
    162 := "Philippines",
    166 := "Qatar",
    184 := "Singapure",
    189 := "South Africa",
    191 := "Sri Lanka",
    208 := "Turkey",
    214 := "United Arab Emirates",
    215 := "England",
    216 := "United States of America"
  ]

  /** The country list every page offers in its filter and selects by default. */
  const CountryOptions: seq<string> := [
    "Brazil", "England", "Qatar", "South Africa", "Canada", "Australia",
    "Philippines", "United States of America", "Singapure",
    "United Arab Emirates", "India", "Indonesia", "New Zeland", "Sri Lanka",
    "Turkey"
  ]

  /** `country_name`: `COUNTRIES[code]`, a KeyError for any other code. */
  function CountryName(code: Value): (r: Result<string>)
    ensures r.Ok? ==> r.value in Countries.Values
    ensures r.Err? ==> r.error == UnmappedCountry(code)
  {
    if code.I? && code.num in Countries then Ok(Countries[code.num])
    else Err(UnmappedCountry(code))
  }

  /** The four price tiers. */
  const PriceLabels: set<string> := {"cheap", "normal", "expensive", "gourmet"}

  /** `create_price_tye`: 1, 2 and 3 are cheap, normal and expensive; every
      other value, whatever it is, is gourmet. */
  function PriceType(priceRange: Value): (r: string)
    ensures r in PriceLabels
  {
    if priceRange == I(1) then "cheap"
    else if priceRange == I(2) then "normal"
    else if priceRange == I(3) then "expensive"
    else "gourmet"
  }

  /** `COLORS`: rating colour codes (upper-case hex, no '#') and their names. */
  const Colors: map<string, string> := map[
    "3F7E00" := "darkgreen",
    "5BA829" := "green",
    "9ACD32" := "lightgreen",
    "CDD614" := "orange",
    "FFBA00" := "red",
    "CBCBC8" := "darkred",
    "FF7800" := "darkred"
  ]

  /** `color_name`: `COLORS[code]`, a KeyError for any other code. */
  function ColorName(code: Value): (r: Result<string>)
    ensures r.Ok? ==> r.value in Colors.Values
    ensures r.Err? ==> r.error == UnmappedColor(code)
  {
    if code.S? && code.text in Colors then Ok(Colors[code.text])
    else Err(UnmappedColor(code))
  }

  // ---------------------------------------------------------------------
  // Properties of the tables

  /** `country_name` is defined on exactly the fifteen listed integer codes. */
  lemma CountryNameDomain(code: Value)
    ensures CountryName(code).Ok? <==>
      code in {I(1), I(14), I(30), I(37), I(94), I(148), I(162), I(166), I(184),
               I(189), I(191), I(208), I(214), I(215), I(216)}
  {
  }

  /** The code a country name comes from: the inverse of `COUNTRIES`. */
  function CodeOf(name: string): int {
    if name == "India" then 1
    else if name == "Australia" then 14
    else if name == "Brazil" then 30
    else if name == "Canada" then 37
    else if name == "Indonesia" then 94
    else if name == "New Zeland" then 148
    else if name == "Philippines" then 162
    else if name == "Qatar" then 166
    else if name == "Singapure" then 184
    else if name == "South Africa" then 189
    else if name == "Sri Lanka" then 191
    else if name == "Turkey" then 208
    else if name == "United Arab Emirates" then 214
    else if name == "England" then 215
    else 216
  }

  lemma CodeOfInverts(code: int)
    requires code in Countries
    ensures CodeOf(Countries[code]) == code
  {
  }

  /** No two codes share a name. */
  lemma CountriesInjective()
    ensures forall a, b :: a in Countries && b in Countries && a != b ==> Countries[a] != Countries[b]
  {
    forall a, b | a in Countries && b in Countries && Countries[a] == Countries[b]
      ensures a == b
    {
      CodeOfInverts(a);
      CodeOfInverts(b);
    }
  }

  /** The codes of the filter's options, in the options' order. */
  const OptionCodes: seq<int> := [30, 215, 166, 189, 37, 14, 162, 216, 184, 214, 1, 94, 148, 191, 208]

  lemma OptionCodesMatch()
    ensures |OptionCodes| == |CountryOptions| == 15 && Distinct(OptionCodes)
    ensures forall i :: 0 <= i < 15 ==> OptionCodes[i] in Countries && Countries[OptionCodes[i]] == CountryOptions[i]
  {
  }

  /** The filter's option list names each country of the table exactly once,
      so the default selection is every country the table can hold. */
  lemma CountryOptionsAreCountryNames()
    ensures forall n :: n in CountryOptions <==> n in Countries.Values
    ensures |CountryOptions| == 15 && Distinct(CountryOptions)
    ensures |Countries.Values| == 15
  {
    OptionCodesMatch();
    forall n | n in Countries.Values
      ensures n in CountryOptions
    {
      var c :| c in Countries && Countries[c] == n;
      CodeOfInverts(c);
      assert c in OptionCodes;
      var i :| 0 <= i < 15 && OptionCodes[i] == c;
    }
    forall n | n in CountryOptions
      ensures n in Countries.Values
    {
      var i :| 0 <= i < 15 && CountryOptions[i] == n;
    }
    CountriesInjective();
    forall i, j | 0 <= i < j < 15
      ensures CountryOptions[i] != CountryOptions[j]
    {
    }
    ElemsBound(CountryOptions);
    assert Elems(CountryOptions) == Countries.Values;
  }

  /** Every country name is one of the filter's options. */
  lemma CountryNameIsOption(n: string)
    requires n in Countries.Values
    ensures n in CountryOptions
  {
    var c :| c in Countries && Countries[c] == n;
    CodeOfInverts(c);
    OptionCodesMatch();
    assert c in OptionCodes;
    var i :| 0 <= i < 15 && OptionCodes[i] == c;
    assert CountryOptions[i] == n;
  }

  /** No country name starts or ends with a blank, so trimming leaves it. */
  lemma CountryNameStripped(n: string)
    requires n in Countries.Values
    ensures Strip(n) == n
  {
    var c :| c in Countries && Countries[c] == n;
    CountryNamesShape(c);
    StripKeepsVisibleEnds(n);
  }

  /** Every country name starts with a capital and ends with a small letter. */
  lemma CountryNamesShape(c: int)
    requires c in Countries
    ensures |Countries[c]| > 0 && 'A' <= Countries[c][0] <= 'Z'
    ensures 'a' <= Countries[c][|Countries[c]| - 1] <= 'z'
  {
  }

  /** `create_price_tye` is total and tells the four tiers apart exactly by
      the codes 1, 2, 3 and everything else. */
  lemma PriceTypeCases(v: Value)
    ensures PriceType(v) == "cheap" <==> v == I(1)
    ensures PriceType(v) == "normal" <==> v == I(2)
    ensures PriceType(v) == "expensive" <==> v == I(3)
    ensures PriceType(v) == "gourmet" <==> v !in {I(1), I(2), I(3)}
  {
  }

  /** `color_name` is defined on exactly seven text codes. */
  lemma ColorNameDomain(code: Value)
    ensures ColorName(code).Ok? <==>
      code in {S("3F7E00"), S("5BA829"), S("9ACD32"), S("CDD614"), S("FFBA00"),
               S("CBCBC8"), S("FF7800")}
  {
  }

  /** Seven codes map onto six names: "CBCBC8" and "FF7800" are both
      "darkred", and that is the only collision. */
  lemma ColorCollision()
    ensures ColorName(S("CBCBC8")) == ColorName(S("FF7800")) == Ok("darkred")
    ensures forall a, b :: a in Colors && b in Colors && a != b && Colors[a] == Colors[b] ==>
      {a, b} == {"CBCBC8", "FF7800"}
  {
  }

  /** The colour table has seven codes and six names. */
  lemma ColorCounts()
    ensures |Colors| == 7 && |Colors.Values| == 6
  {
    ColorCodeCount();
    ColorNamesListed();
    assert |{"darkgreen", "green", "lightgreen", "orange", "red", "darkred"}| == 6;
  }

  lemma ColorCodeCount()
    ensures |Colors| == 7
  {
  }

  /** The six colour names. */
  lemma ColorNamesListed()
    ensures Colors.Values == {"darkgreen", "green", "lightgreen", "orange", "red", "darkred"}
  {
    forall n | n in Colors.Values
      ensures n in {"darkgreen", "green", "lightgreen", "orange", "red", "darkred"}
    {
      var c :| c in Colors && Colors[c] == n;
    }
    assert Colors["3F7E00"] == "darkgreen";
    assert Colors["5BA829"] == "green";
    assert Colors["9ACD32"] == "lightgreen";
    assert Colors["CDD614"] == "orange";
    assert Colors["FFBA00"] == "red";
    assert Colors["FF7800"] == "darkred";
  }

  /** Every colour code is six characters and starts and ends with a digit
      or an upper-case letter up to 'F'. */
  lemma ColorCodesShape()
    ensures forall c :: c in Colors ==> |c| == 6 && '0' <= c[0] <= 'F' && '0' <= c[5] <= 'F'
  {
  }

  /** The colour codes carry no blanks at either end: a code that `strip()`
      would change is never found, even though the stored `rating_color` is
      trimmed later. */
  lemma ColorLookupNeedsTrimmedCode(s: string)
    requires ColorName(S(s)).Ok?
    ensures Strip(s) == s
    ensures ColorName(S(" " + s)).Err? && ColorName(S(s + " ")).Err?
  {
    ColorCodeStripped(s);
    PaddedColorCodesFail(s);
  }

  lemma ColorCodeShape(s: string)
    requires s in Colors
    ensures |s| == 6 && '0' <= s[0] <= 'F' && '0' <= s[5] <= 'F'
  {
    ColorCodesShape();
  }

  lemma ColorCodeStripped(s: string)
    requires ColorName(S(s)).Ok?
    ensures Strip(s) == s
  {
    ColorCodeShape(s);
    StripKeepsVisibleEnds(s);
  }

  lemma PaddedColorCodesFail(s: string)
    requires ColorName(S(s)).Ok?
    ensures ColorName(S(" " + s)).Err? && ColorName(S(s + " ")).Err?
  {
    ColorCodeShape(s);
    if " " + s in Colors {
      ColorCodeShape(" " + s);
      assert false;
    }
    if s + " " in Colors {
      ColorCodeShape(s + " ");
      assert false;
    }
  }

  /** No colour name starts or ends with a blank. */
  lemma ColorNameStripped(n: string)
    requires n in Colors.Values
    ensures Strip(n) == n
  {
    var c :| c in Colors && Colors[c] == n;
    ColorNamesShape(c);
    StripKeepsVisibleEnds(n);
  }

  /** Every colour name starts and ends with a small letter. */
  lemma ColorNamesShape(c: string)
    requires c in Colors
    ensures |Colors[c]| > 0 && 'a' <= Colors[c][0] <= 'z' && 'a' <= Colors[c][|Colors[c]| - 1] <= 'z'
  {
  }

  /** The lookups of one sample row: code 30, range 3, colour "3F7E00". */
  lemma ExampleLookups()
    ensures CountryName(I(30)) == Ok("Brazil") && PriceType(I(3)) == "expensive"
    ensures ColorName(S("3F7E00")) == Ok("darkgreen")
  {
  }
}
