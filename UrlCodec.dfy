/** The palette's address-bar codec (src/App.jsx): the encoder turns the
    colours into `color1=…&color2=…` (the expression of line 122, repeated at
    line 96), and the decoder run once on load reads `color1`..`color5` from
    the query and keeps the non-empty values in index order (lines 104-118). */
module UrlCodec {
  import opened Wrappers
  import opened Text
  import opened PercentEncoding
  import opened FormUrlEncoded

  /** The decoder looks at `color1` through `color5`. */
  const MaxIndex: nat := 5

  /** The query parameter name for 1-based position `k`. */
  function Key(k: nat): string {
    "color" + Decimal(k)
  }

  /** Keys of distinct single-digit positions are distinct. */
  lemma KeyInjective(i: nat, j: nat)
    requires i < 10 && j < 10 && Key(i) == Key(j)
    ensures i == j
  {
    assert Decimal(i) == Key(i)[5..] && Decimal(j) == Key(j)[5..];
    DecimalSingleDigitInjective(i, j);
  }

  /** The parameter for the colour at 1-based position `k`. */
  function Pair(k: nat, color: string): (r: string)
    requires IsAscii(color)
    ensures '&' !in r
  {
    KeyIsPlain(k);
    EncodedHasNoDelimiters(color);
    Key(k) + "=" + EncodeURIComponent(color)
  }

  /** `colors.map((color, index) => `color${index + 1}=${encodeURIComponent(color)}`)`. */
  function Pairs(colors: seq<string>): (r: seq<string>)
    requires AllAscii(colors)
    ensures |r| == |colors|
    ensures forall i :: 0 <= i < |r| ==> '&' !in r[i]
  {
    seq(|colors|, i requires 0 <= i < |colors| => Pair(i + 1, colors[i]))
  }

  /** The query string of line 122: the pairs joined by `&`, so that
      splitting it on `&` gives the pairs back. */
  function Encode(colors: seq<string>): (r: string)
    requires AllAscii(colors)
    ensures |colors| == 0 ==> r == ""
    ensures |colors| >= 1 ==> Split(r, '&') == Pairs(colors)
  {
    var parts := Pairs(colors);
    assert |parts| >= 1 ==> Split(Join(parts, '&'), '&') == parts by {
      if |parts| >= 1 {
        SplitJoin(parts, '&');
      }
    }
    Join(parts, '&')
  }

  /** The query passed to `history.replaceState` (line 123): `?` followed by
      the encoded palette. */
  function Search(colors: seq<string>): string
    requires AllAscii(colors)
  {
    "?" + Encode(colors)
  }

  /** The key of a palette position contains none of `& = + %`. */
  lemma KeyIsPlain(k: nat)
    ensures '&' !in Key(k) && '=' !in Key(k) && '+' !in Key(k) && '%' !in Key(k)
    ensures |Key(k)| > 5
  {
    var key := Key(k);
    assert forall j :: 0 <= j < |key| ==> key[j] != '&' && key[j] != '=' && key[j] != '+' && key[j] != '%' by {
      forall j | 0 <= j < |key| ensures key[j] != '&' && key[j] != '=' && key[j] != '+' && key[j] != '%' {
        if j >= 5 {
          assert key[j] == Decimal(k)[j - 5];
        }
      }
    }
  }

  /** The encoder writes exactly one `color{k}=value` sequence per colour, in
      palette order with k = index + 1, joined by `&`, and no value contains a
      raw `&`, `=` or `+`. */
  lemma EncodeOnePairPerColor(colors: seq<string>)
    requires 1 <= |colors| && AllAscii(colors)
    ensures Split(Encode(colors), '&') == Pairs(colors)
    ensures |Split(Encode(colors), '&')| == |colors|
    ensures forall i :: 0 <= i < |colors| ==>
              Split(Encode(colors), '&')[i] == Key(i + 1) + "=" + EncodeURIComponent(colors[i])
    ensures forall i :: 0 <= i < |colors| ==>
              '&' !in EncodeURIComponent(colors[i]) && '=' !in EncodeURIComponent(colors[i]) &&
              '+' !in EncodeURIComponent(colors[i])
  {
    var pairs := Pairs(colors);
    forall i | 0 <= i < |pairs| ensures '&' !in pairs[i] {
      EncodedHasNoDelimiters(colors[i]);
      KeyIsPlain(i + 1);
    }
    SplitJoin(pairs, '&');
    forall i | 0 <= i < |colors|
      ensures '&' !in EncodeURIComponent(colors[i]) && '=' !in EncodeURIComponent(colors[i]) &&
              '+' !in EncodeURIComponent(colors[i])
    {
      EncodedHasNoDelimiters(colors[i]);
    }
  }

  /** One encoded parameter parses back to its key and its colour. */
  lemma ParsePairEncoded(k: nat, color: string)
    requires IsAscii(color)
    ensures ParsePair(Pair(k, color)) == (Key(k), color)
  {
    KeyIsPlain(k);
    EncodedHasNoDelimiters(color);
    ParsePairPlain(Key(k), EncodeURIComponent(color));
    DecodeEncode(color);
  }

  /** Parsing the encoder's output gives back one pair per colour: the
      colour's key and the colour itself. */
  lemma ParseEncode(colors: seq<string>)
    requires 1 <= |colors| && AllAscii(colors)
    ensures |Parse(Encode(colors))| == |colors|
    ensures forall i :: 0 <= i < |colors| ==> Parse(Encode(colors))[i] == (Key(i + 1), colors[i])
  {
    var pairs := Pairs(colors);
    EncodeOnePairPerColor(colors);
    var params := ParseSequences(pairs);
    assert Parse(Encode(colors)) == params;
    forall i | 0 <= i < |pairs| ensures pairs[i] != "" {
      KeyIsPlain(i + 1);
    }
    ParseSequencesAll(pairs);
    forall i | 0 <= i < |colors| ensures params[i] == (Key(i + 1), colors[i]) {
      assert pairs[i] == Pair(i + 1, colors[i]);
      ParsePairEncoded(i + 1, colors[i]);
    }
  }

  /** The `?`-prefixed query handed to `replaceState` reads back as the same
      list of pairs as the bare query. */
  lemma ParseSearchEncode(colors: seq<string>)
    requires 1 <= |colors| && AllAscii(colors)
    ensures ParseSearch(Search(colors)) == Parse(Encode(colors))
  {
    assert Search(colors)[1..] == Encode(colors);
  }

  /** In the pairs of an encoded palette of at most five colours, `get` finds
      colour k - 1 under `color{k}`, and nothing for positions past the end. */
  lemma GetEncoded(colors: seq<string>, k: nat)
    requires 1 <= |colors| <= MaxIndex && AllAscii(colors)
    requires 1 <= k <= MaxIndex
    ensures Get(Parse(Encode(colors)), Key(k)) ==
            if k <= |colors| then Some(colors[k - 1]) else None
  {
    ParseEncode(colors);
    var params := Parse(Encode(colors));
    forall j | 0 <= j < |params| && params[j].0 == Key(k) ensures j == k - 1 {
      KeyInjective(j + 1, k);
    }
    if k <= |colors| {
      GetFirst(params, Key(k), k - 1);
    }
  }

  /** The parameter of a colour `#` + `digits`, with `digits` unreserved
      (the six hex digits of `#RRGGBB`), at a single-digit position k. */
  lemma HashColorPair(k: nat, digits: string)
    requires 1 <= k <= 9
    requires forall i :: 0 <= i < |digits| ==> Unreserved(digits[i]) && digits[i] as int < 128
    ensures IsAscii("#" + digits)
    ensures Pair(k, "#" + digits) == "color" + [DigitChar(k)] + "=%23" + digits
  {
    EncodeHashColor(digits);
  }

  /** Helper for the three-colour example: its parameters, in order. */
  lemma PairsOfThree(a: string, b: string, c: string)
    requires IsAscii(a) && IsAscii(b) && IsAscii(c)
    ensures AllAscii([a, b, c])
    ensures Pairs([a, b, c]) == [Pair(1, a), Pair(2, b), Pair(3, c)]
  {
  }

  /** Three `#`-colours encode as `color1=%23…&color2=%23…&color3=%23…`;
      for instance `#FF0000`, `#00FF00`, `#0000FF` give
      `color1=%23FF0000&color2=%2300FF00&color3=%230000FF`. */
  lemma EncodeThreeHashColors(a: string, b: string, c: string)
    requires forall i :: 0 <= i < |a| ==> Unreserved(a[i]) && a[i] as int < 128
    requires forall i :: 0 <= i < |b| ==> Unreserved(b[i]) && b[i] as int < 128
    requires forall i :: 0 <= i < |c| ==> Unreserved(c[i]) && c[i] as int < 128
    ensures AllAscii(["#" + a, "#" + b, "#" + c])
    ensures Encode(["#" + a, "#" + b, "#" + c]) ==
            "color1=%23" + a + "&color2=%23" + b + "&color3=%23" + c
  {
    HashColorPair(1, a);
    HashColorPair(2, b);
    HashColorPair(3, c);
    PairsOfThree("#" + a, "#" + b, "#" + c);
    var p1, p2, p3 := Pair(1, "#" + a), Pair(2, "#" + b), Pair(3, "#" + c);
    JoinThree(p1, p2, p3, '&');
    assert p1 == "color1=%23" + a by {
      assert DigitChar(1) == '1';
      assert "color" + ['1'] + "=%23" == "color1=%23";
    }
    assert p2 == "color2=%23" + b by {
      assert DigitChar(2) == '2';
      assert "color" + ['2'] + "=%23" == "color2=%23";
    }
    assert p3 == "color3=%23" + c by {
      assert DigitChar(3) == '3';
      assert "color" + ['3'] + "=%23" == "color3=%23";
    }
    ConcatThreeParameters(a, b, c);
  }

  /** Helper for the three-colour example: regrouping of the three
      parameters joined by `&`. */
  lemma ConcatThreeParameters(a: string, b: string, c: string)
    ensures ("color1=%23" + a) + "&" + ("color2=%23" + b) + "&" + ("color3=%23" + c) ==
            "color1=%23" + a + "&color2=%23" + b + "&color3=%23" + c
  {
    assert "&" + ("color2=%23" + b) == "&color2=%23" + b;
    assert "&" + ("color3=%23" + c) == "&color3=%23" + c;
  }

  /** JavaScript truthiness of a `get` result: present and not the empty string. */
  predicate Truthy(value: Option<string>) {
    value.Some? && value.value != ""
  }

  /** The colours the decoding loop has collected after positions 1..k. */
  function Collected(params: Params, k: nat): (r: seq<string>)
    ensures |r| <= k
    ensures forall i :: 0 <= i < |r| ==> r[i] != ""
  {
    if k == 0 then []
    else
      var value := Get(params, Key(k));
      Collected(params, k - 1) + if Truthy(value) then [value.value] else []
  }

  /** The loop collects nothing exactly when none of `color1`..`color{k}`
      is present with a non-empty value. */
  lemma {:induction false} CollectedEmptyIff(params: Params, k: nat)
    ensures Collected(params, k) == [] <==>
            forall j :: 1 <= j <= k ==> !Truthy(Get(params, Key(j)))
  {
    if k > 0 {
      CollectedEmptyIff(params, k - 1);
      var value := Get(params, Key(k));
      if Truthy(value) {
        assert Collected(params, k) == Collected(params, k - 1) + [value.value];
        assert Collected(params, k) != [] && Truthy(Get(params, Key(k)));
      } else {
        assert Collected(params, k) == Collected(params, k - 1);
        assert (forall j :: 1 <= j <= k ==> !Truthy(Get(params, Key(j)))) <==>
               (forall j :: 1 <= j <= k - 1 ==> !Truthy(Get(params, Key(j))));
      }
    }
  }

  /** A missing or empty `color{k}` leaves no gap and no entry. */
  lemma CollectedSkipsMissing(params: Params, k: nat)
    requires 1 <= k && !Truthy(Get(params, Key(k)))
    ensures Collected(params, k) == Collected(params, k - 1)
  {
  }

  /** Gaps are skipped: with only `color1` and `color3` set (to non-empty
      values), the decoder collects those two values in that order. */
  lemma CollectedAcrossGap(params: Params, first: string, third: string)
    requires first != "" && third != ""
    requires Get(params, Key(1)) == Some(first) && Get(params, Key(3)) == Some(third)
    requires Get(params, Key(2)).None? && Get(params, Key(4)).None? && Get(params, Key(5)).None?
    ensures Collected(params, MaxIndex) == [first, third]
  {
    assert Collected(params, 1) == [first];
    assert Collected(params, 2) == [first];
    assert Collected(params, 3) == [first, third];
    assert Collected(params, 4) == [first, third];
  }

  /** Every collected colour is the value of some `color{j}` with j in 1..k. */
  lemma {:induction false} CollectedFromKeys(params: Params, k: nat, i: nat)
    requires i < |Collected(params, k)|
    ensures exists j :: 1 <= j <= k && Get(params, Key(j)) == Some(Collected(params, k)[i])
  {
    var prior := Collected(params, k - 1);
    if i < |prior| {
      CollectedFromKeys(params, k - 1, i);
      var j :| 1 <= j <= k - 1 && Get(params, Key(j)) == Some(prior[i]);
      assert Collected(params, k)[i] == prior[i];
    } else {
      assert Get(params, Key(k)) == Some(Collected(params, k)[i]);
    }
  }

  /** The loop of lines 106-113 over the parsed query: for i = 1..5, push
      every truthy `urlParams.get(`color${i}`)`. The result is the present,
      non-empty values of `color1`..`color5`, in index order. */
  method CollectUrlColors(urlParams: Params) returns (urlColors: seq<string>)
    ensures urlColors == Collected(urlParams, MaxIndex)
    ensures urlColors == NonEmpty(Lookups(urlParams, MaxIndex))
    ensures |urlColors| <= MaxIndex
    ensures forall i :: 0 <= i < |urlColors| ==> urlColors[i] != ""
  {
    urlColors := [];
    var i := 1;
    while i <= MaxIndex
      invariant 1 <= i <= MaxIndex + 1
      invariant urlColors == Collected(urlParams, i - 1)
    {
      var color := Get(urlParams, Key(i));
      if color.Some? && color.value != "" {
        urlColors := urlColors + [color.value];
      }
      i := i + 1;
    }
    CollectedIsNonEmptyLookups(urlParams, MaxIndex);
  }

  /** Lines 105-113: parse `location.search`, then collect the colours. */
  method ReadUrlColors(search: string) returns (urlColors: seq<string>)
    ensures urlColors == Collected(ParseSearch(search), MaxIndex)
    ensures |urlColors| <= MaxIndex
    ensures forall i :: 0 <= i < |urlColors| ==> urlColors[i] != ""
  {
    var urlParams := ParseSearch(search);
    urlColors := CollectUrlColors(urlParams);
  }

  /** The non-empty strings of `colors`, in order. */
  function NonEmpty(colors: seq<string>): (r: seq<string>)
    ensures |r| <= |colors|
    ensures forall i :: 0 <= i < |r| ==> r[i] != ""
    ensures (forall i :: 0 <= i < |colors| ==> colors[i] != "") ==> r == colors
    ensures (forall i :: 0 <= i < |colors| ==> colors[i] == "") ==> r == []
  {
    if |colors| == 0 then []
    else NonEmpty(colors[..|colors| - 1]) +
         (if colors[|colors| - 1] != "" then [colors[|colors| - 1]] else [])
  }

  /** What `get` gives, with JavaScript's `null` read as the empty string:
      non-empty exactly when the loop's `if (color)` accepts it. */
  function ValueOrEmpty(value: Option<string>): (r: string)
    ensures r != "" <==> Truthy(value)
    ensures value.Some? ==> r == value.value
  {
    if value.Some? then value.value else ""
  }

  /** The values of `color1`..`color{k}` in index order, a missing one as `""`. */
  function Lookups(params: Params, k: nat): (r: seq<string>)
    ensures |r| == k
    ensures forall j :: 0 <= j < k ==> r[j] == ValueOrEmpty(Get(params, Key(j + 1)))
  {
    if k == 0 then [] else Lookups(params, k - 1) + [ValueOrEmpty(Get(params, Key(k)))]
  }

  /** For every query, the loop collects exactly the present, non-empty values
      of `color1`..`color{k}`, in index order. */
  lemma {:induction false} CollectedIsNonEmptyLookups(params: Params, k: nat)
    ensures Collected(params, k) == NonEmpty(Lookups(params, k))
  {
    if k > 0 {
      CollectedIsNonEmptyLookups(params, k - 1);
      var values := Lookups(params, k);
      assert values[..k - 1] == Lookups(params, k - 1);
      assert values[k - 1] == ValueOrEmpty(Get(params, Key(k)));
    }
  }

  /** When `get` finds colour j - 1 under `color{j}` for the positions of
      `colors` and nothing after them, the decoder collects the non-empty
      colours among the first k. */
  lemma {:induction false} CollectedLookup(params: Params, colors: seq<string>, k: nat)
    requires forall j :: 1 <= j <= k ==>
               Get(params, Key(j)) == if j <= |colors| then Some(colors[j - 1]) else None
    ensures Collected(params, k) == NonEmpty(colors[..if k <= |colors| then k else |colors|])
  {
    if k > 0 {
      CollectedLookup(params, colors, k - 1);
      var value := Get(params, Key(k));
      assert Collected(params, k) ==
             Collected(params, k - 1) + if Truthy(value) then [value.value] else [];
      if k <= |colors| {
        var prefix := colors[..k];
        assert prefix[..k - 1] == colors[..k - 1];
        assert value == Some(prefix[k - 1]);
        assert NonEmpty(prefix) == NonEmpty(colors[..k - 1]) +
               (if prefix[k - 1] != "" then [prefix[k - 1]] else []);
      } else {
        assert value.None?;
      }
    }
  }

  /** What the decoder reads back from the query of a palette of one to five
      ASCII colours: its non-empty colours, in order. */
  lemma ReadBackEncoded(colors: seq<string>)
    requires 1 <= |colors| <= MaxIndex && AllAscii(colors)
    ensures Collected(ParseSearch(Search(colors)), MaxIndex) == NonEmpty(colors)
  {
    ParseSearchEncode(colors);
    var params := Parse(Encode(colors));
    forall j | 1 <= j <= MaxIndex
      ensures Get(params, Key(j)) == if j <= |colors| then Some(colors[j - 1]) else None
    {
      GetEncoded(colors, j);
    }
    CollectedLookup(params, colors, MaxIndex);
    assert colors[..|colors|] == colors;
  }

  /** Round trip: reading back the query of a palette of one to five
      non-empty ASCII colours yields that palette. */
  lemma RoundTrip(colors: seq<string>)
    requires 1 <= |colors| <= MaxIndex && AllAscii(colors)
    requires forall i :: 0 <= i < |colors| ==> colors[i] != ""
    ensures Collected(ParseSearch(Search(colors)), MaxIndex) == colors
  {
    ReadBackEncoded(colors);
  }

  /** The exception to the round trip: a palette whose colours are all empty
      reads back as nothing, so the palette on load is kept. */
  lemma EmptyColorsAreLost(colors: seq<string>)
    requires 1 <= |colors| <= MaxIndex && AllAscii(colors)
    requires forall i :: 0 <= i < |colors| ==> colors[i] == ""
    ensures Collected(ParseSearch(Search(colors)), MaxIndex) == []
  {
    ReadBackEncoded(colors);
  }
}
