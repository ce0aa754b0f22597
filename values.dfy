/** Cells of the restaurant table, the pipeline's error kinds, and the text
    operations the cleaning stages apply to cells: Python's `str.strip()`,
    `str.split(",")[0]` and `astype(str)`. */
module Values {

  /** One cell. `Missing` is pandas' NaN; integer cells come from the numeric
      columns (codes, identifiers, votes), text cells from the object columns. */
  datatype Value = Missing | I(num: int) | S(text: string)

  /** The failures `clean_code` can raise: a label that `.loc`/`[]` cannot
      find (KeyError on a column) and a code that a lookup dictionary lacks
      (KeyError on `COUNTRIES[...]` or `COLORS[...]`). */
  datatype Error =
    | MissingColumn(name: string)
    | UnmappedCountry(code: Value)
    | UnmappedColor(code: Value)

  datatype Option<+T> = None | Some(value: T)

  datatype Result<+T> = Ok(value: T) | Err(error: Error) {
    predicate IsFailure() { Err? }
    function PropagateFailure<U>(): Result<U>
      requires Err?
    {
      Err(error)
    }
    function Extract(): T
      requires Ok?
    {
      value
    }
  }

  /** Python's `str.isspace()` on one character: the ASCII controls 9-13 and
      28-31, the space, and the Unicode separators Python treats as blank. */
  predicate IsSpace(c: char) {
    || c == ' '
    || ('\t' <= c <= '\r')
    || ('\U{1C}' <= c <= '\U{1F}')
    || c == '\U{85}' || c == '\U{A0}' || c == '\U{1680}'
    || ('\U{2000}' <= c <= '\U{200A}')
    || c == '\U{2028}' || c == '\U{2029}' || c == '\U{202F}'
    || c == '\U{205F}' || c == '\U{3000}'
  }

  /** Removes leading blanks: the result is the suffix of `s` that starts at
      its first non-blank character. */
  function TrimLeft(s: string): (r: string)
    ensures |r| <= |s| && r == s[|s| - |r|..]
    ensures forall k :: 0 <= k < |s| - |r| ==> IsSpace(s[k])
    ensures r == [] || !IsSpace(r[0])
  {
    if |s| > 0 && IsSpace(s[0]) then TrimLeft(s[1..]) else s
  }

  /** Removes trailing blanks: the result is the prefix of `s` that ends at
      its last non-blank character. */
  function TrimRight(s: string): (r: string)
    ensures |r| <= |s| && r == s[..|r|]
    ensures forall k :: |r| <= k < |s| ==> IsSpace(s[k])
    ensures r == [] || !IsSpace(r[|r| - 1])
  {
    if |s| > 0 && IsSpace(s[|s| - 1]) then TrimRight(s[..|s| - 1]) else s
  }

  /** Python's `str.strip()` with no argument. */
  function Strip(s: string): string {
    TrimRight(TrimLeft(s))
  }

  /** Where the stripped text starts inside `s`. */
  function StripStart(s: string): nat
    ensures StripStart(s) <= |s|
  {
    |s| - |TrimLeft(s)|
  }

  /** `Strip(s)` is the slice of `s` obtained by cutting off blanks, and only
      blanks, at both ends; what remains neither starts nor ends with one. */
  lemma StripIsBlankTrimmedSlice(s: string)
    ensures StripStart(s) + |Strip(s)| <= |s|
    ensures Strip(s) == s[StripStart(s)..StripStart(s) + |Strip(s)|]
    ensures forall k :: 0 <= k < StripStart(s) ==> IsSpace(s[k])
    ensures forall k :: StripStart(s) + |Strip(s)| <= k < |s| ==> IsSpace(s[k])
    ensures Strip(s) == [] || (!IsSpace(Strip(s)[0]) && !IsSpace(Strip(s)[|Strip(s)| - 1]))
  {
    StripSlice(s);
    StripTrailingBlanks(s);
    StripEnds(s);
  }

  lemma StripSlice(s: string)
    ensures StripStart(s) + |Strip(s)| <= |s|
    ensures Strip(s) == s[StripStart(s)..StripStart(s) + |Strip(s)|]
  {
    var l := TrimLeft(s);
    var r := TrimRight(l);
    assert l == s[StripStart(s)..];
    assert r == l[..|r|];
  }

  lemma StripTrailingBlanks(s: string)
    ensures StripStart(s) + |Strip(s)| <= |s|
    ensures forall k :: StripStart(s) + |Strip(s)| <= k < |s| ==> IsSpace(s[k])
  {
    SuffixBlanks(s, StripStart(s), TrimLeft(s), |Strip(s)|);
  }

  /** Blanks at the end of the suffix `s[a..]` are blanks at the end of `s`. */
  lemma SuffixBlanks(s: string, a: nat, l: string, n: nat)
    requires a <= |s| && l == s[a..] && n <= |l|
    requires forall k :: n <= k < |l| ==> IsSpace(l[k])
    ensures forall k :: a + n <= k < |s| ==> IsSpace(s[k])
  {
    forall k | a + n <= k < |s|
      ensures IsSpace(s[k])
    {
      assert s[k] == l[k - a];
    }
  }

  lemma StripEnds(s: string)
    ensures Strip(s) == [] || (!IsSpace(Strip(s)[0]) && !IsSpace(Strip(s)[|Strip(s)| - 1]))
  {
    var l := TrimLeft(s);
    var r := TrimRight(l);
    if r != [] {
      assert r[0] == l[0];
    }
  }

  /** Every character of `Strip(s)` is a character of `s`. */
  lemma StripKeepsOnlyCharsOf(s: string, c: char)
    requires c in Strip(s)
    ensures c in s
  {
    StripIsBlankTrimmedSlice(s);
    var i :| 0 <= i < |Strip(s)| && Strip(s)[i] == c;
    assert s[StripStart(s) + i] == c;
  }

  /** A text that neither starts nor ends with a blank is left as it is. */
  lemma StripUnchanged(s: string)
    requires s == [] || (!IsSpace(s[0]) && !IsSpace(s[|s| - 1]))
    ensures Strip(s) == s
  {
  }

  /** A text that starts and ends with a visible ASCII character is left as
      it is. */
  lemma StripKeepsVisibleEnds(s: string)
    requires |s| > 0 && '!' <= s[0] <= '~' && '!' <= s[|s| - 1] <= '~'
    ensures Strip(s) == s
  {
    StripUnchanged(s);
  }

  /** Stripping twice is stripping once. */
  lemma StripIdempotent(s: string)
    ensures Strip(Strip(s)) == Strip(s)
  {
    StripIsBlankTrimmedSlice(s);
    StripUnchanged(Strip(s));
  }

  /** `s.split(",")[0]`: the text before the first comma, or all of `s` when
      it has none. */
  function BeforeComma(s: string): (r: string)
    ensures ',' !in r
    ensures |r| <= |s| && r == s[..|r|]
    ensures |r| < |s| ==> s[|r|] == ','
  {
    if s == [] then []
    else if s[0] == ',' then []
    else [s[0]] + BeforeComma(s[1..])
  }

  /** When the first comma of `s` is at `i`, the first piece is `s[..i]`. */
  lemma {:induction false} BeforeCommaAt(s: string, i: nat)
    requires i < |s| && s[i] == ',' && ',' !in s[..i]
    ensures BeforeComma(s) == s[..i]
  {
    if i > 0 {
      assert s[1..][i - 1] == ',';
      assert s[1..][..i - 1] == s[1..i];
      assert s[0] in s[..i];
      BeforeCommaAt(s[1..], i - 1);
      assert s[..i] == [s[0]] + s[1..i];
    }
  }

  /** Decimal digits of a natural number, as Python's `str` writes them. */
  function NatText(n: nat): (r: string)
    ensures |r| > 0
    ensures forall k :: 0 <= k < |r| ==> '0' <= r[k] <= '9'
  {
    var d := ['0' + (n % 10) as char];
    if n < 10 then d else NatText(n / 10) + d
  }

  /** Python's `str(n)` for an integer. */
  function IntText(n: int): string {
    if n < 0 then "-" + NatText(-n) else NatText(n)
  }

  /** Pandas' `astype(str)` on one cell: NaN becomes "nan", an integer its
      decimal text, a text cell stays as it is. */
  function AsText(v: Value): (r: string)
    ensures v.S? ==> r == v.text
    ensures !v.S? ==> ',' !in r
  {
    match v
    case Missing => "nan"
    case I(n) => IntText(n)
    case S(s) => s
  }

  /** `Series.str.strip()` on one cell of an object column: text is stripped,
      any other value becomes NaN. */
  function StripValue(v: Value): Value {
    if v.S? then S(Strip(v.text)) else Missing
  }

  lemma StripValueIdempotent(v: Value)
    ensures StripValue(StripValue(v)) == StripValue(v)
  {
    if v.S? {
      StripIdempotent(v.text);
    }
  }

  /** The primary cuisine of "Italian, Pizza" is "Italian". */
  lemma ExampleCuisine()
    ensures Strip(BeforeComma(AsText(S("Italian, Pizza")))) == "Italian"
  {
    var cuisines := "Italian, Pizza";
    assert cuisines[7] == ',' && cuisines[..7] == "Italian";
    BeforeCommaAt(cuisines, 7);
    StripKeepsVisibleEnds("Italian");
  }
}
