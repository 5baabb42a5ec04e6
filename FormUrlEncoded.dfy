/** The query-string reader behind `new URLSearchParams(location.search)` and
    its `get`: the application/x-www-form-urlencoded parser of the WHATWG URL
    Standard, section 5.1, and the first-match lookup of its `get(name)`.
    Each character of the query counts as one byte of the parsed input. */
module FormUrlEncoded {
  import opened Wrappers
  import opened Text
  import PercentEncoding

  /** The parsed list of name-value pairs, in query order. */
  type Params = seq<(string, string)>

  /** `s` with every `+` replaced by a space. */
  function PlusToSpace(s: string): (r: string)
    ensures |r| == |s|
    ensures forall i :: 0 <= i < |s| && s[i] == '+' ==> r[i] == ' '
    ensures forall i :: 0 <= i < |s| && s[i] != '+' ==> r[i] == s[i]
    ensures '+' !in r
    ensures '+' !in s ==> r == s
  {
    seq(|s|, i requires 0 <= i < |s| => if s[i] == '+' then ' ' else s[i])
  }

  /** `s` cut at its first `c`: the part before it and the part after it;
      when `c` does not occur, all of `s` and the empty string. */
  function BreakAt(s: string, c: char): (r: (string, string))
    ensures c !in r.0
    ensures c in s ==> s == r.0 + [c] + r.1
    ensures c !in s ==> r == (s, "")
  {
    if |s| == 0 then ("", "")
    else if s[0] == c then ("", s[1..])
    else
      var rest := BreakAt(s[1..], c);
      assert s == [s[0]] + s[1..];
      ([s[0]] + rest.0, rest.1)
  }

  /** One non-empty `&`-separated sequence as a name-value pair: split at the
      first `=`, turn `+` into spaces, then percent-decode both halves. */
  function ParsePair(bytes: string): (r: (string, string))
    ensures '=' !in bytes ==> r == (PercentEncoding.PercentDecode(PlusToSpace(bytes)), "")
  {
    var (name, value) := BreakAt(bytes, '=');
    (PercentEncoding.PercentDecode(PlusToSpace(name)),
     PercentEncoding.PercentDecode(PlusToSpace(value)))
  }

  /** The pairs of the sequences, in order, skipping empty sequences. */
  function ParseSequences(sequences: seq<string>): (r: Params)
    ensures |r| <= |sequences|
    ensures (forall i :: 0 <= i < |sequences| ==> sequences[i] != "") ==>
              |r| == |sequences|
  {
    if |sequences| == 0 then []
    else if sequences[0] == "" then ParseSequences(sequences[1..])
    else [ParsePair(sequences[0])] + ParseSequences(sequences[1..])
  }

  /** The form-urlencoded parser: split on `&`, then parse each sequence. */
  function Parse(input: string): (r: Params)
    ensures input == "" ==> r == []
    ensures '&' !in input && input != "" ==> r == [ParsePair(input)]
  {
    assert '&' !in input ==> Split(input, '&') == [input] by {
      if '&' !in input {
        SplitWithoutSeparator(input, '&');
      }
    }
    ParseSequences(Split(input, '&'))
  }

  /** The `URLSearchParams` constructor on a string: one leading `?` is dropped. */
  function ParseSearch(search: string): (r: Params)
    ensures search == "" || search == "?" ==> r == []
  {
    Parse(if |search| > 0 && search[0] == '?' then search[1..] else search)
  }

  /** `params.get(name)`: the value of the first pair named `name`, or
      nothing (JavaScript's `null`) when there is none. */
  function Get(params: Params, name: string): (r: Option<string>)
    ensures r.None? <==> forall i :: 0 <= i < |params| ==> params[i].0 != name
  {
    if |params| == 0 then None
    else if params[0].0 == name then Some(params[0].1)
    else
      var r := Get(params[1..], name);
      assert forall i :: 1 <= i < |params| ==> params[i] == params[1..][i - 1];
      r
  }

  /** `get` returns the value of the first pair with the requested name. */
  lemma {:induction false} GetFirst(params: Params, name: string, k: nat)
    requires k < |params| && params[k].0 == name
    requires forall j :: 0 <= j < k ==> params[j].0 != name
    ensures Get(params, name) == Some(params[k].1)
  {
    if k > 0 {
      assert params[1..][k - 1] == params[k];
      GetFirst(params[1..], name, k - 1);
    }
  }

  /** A query whose `&`-separated sequences are all non-empty yields one pair
      per sequence, each the parse of that sequence. */
  lemma {:induction false} ParseSequencesAll(sequences: seq<string>)
    requires forall i :: 0 <= i < |sequences| ==> sequences[i] != ""
    ensures |ParseSequences(sequences)| == |sequences|
    ensures forall i :: 0 <= i < |sequences| ==> ParseSequences(sequences)[i] == ParsePair(sequences[i])
  {
    if |sequences| > 0 {
      var rest := sequences[1..];
      ParseSequencesAll(rest);
      assert ParseSequences(sequences) == [ParsePair(sequences[0])] + ParseSequences(rest);
      assert forall i :: 1 <= i < |sequences| ==> sequences[i] == rest[i - 1];
    }
  }

  /** A sequence `name=value` whose name has none of `= + %` and whose value
      has no `+` parses to the name and the percent-decoded value. */
  lemma ParsePairPlain(name: string, value: string)
    requires '=' !in name && '+' !in name && '%' !in name
    requires '+' !in value
    ensures ParsePair(name + "=" + value) == (name, PercentEncoding.PercentDecode(value))
  {
    var s := name + "=" + value;
    assert '=' in s by { assert s[|name|] == '='; }
    var b := BreakAt(s, '=');
    assert b.0 == name && b.1 == value by {
      BreakAtUnique(s, '=', name, value);
    }
  }

  /** The cut at the first `c` is the only one whose left part is free of `c`. */
  lemma {:induction false} BreakAtUnique(s: string, c: char, left: string, right: string)
    requires c !in left && s == left + [c] + right
    ensures BreakAt(s, c) == (left, right)
  {
    if |left| > 0 {
      assert s[0] == left[0];
      assert s[1..] == left[1..] + [c] + right;
      assert c !in left[1..] by {
        assert forall i :: 0 <= i < |left[1..]| ==> left[1..][i] == left[i + 1];
      }
      BreakAtUnique(s[1..], c, left[1..], right);
      assert left == [left[0]] + left[1..];
    } else {
      assert s[0] == c && s[1..] == right;
    }
  }
}
