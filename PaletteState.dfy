/** The palette state of src/App.jsx: the colour list held in the `colors`
    state cell (line 8) and the handlers that replace it, `addColor`
    (lines 12-16), `removeColor` (lines 19-24), `updateColor` (lines 27-31)
    and the one-time restore from the address bar (lines 104-118). Each
    handler is one atomic step. */
module PaletteState {
  import opened Text
  import opened FormUrlEncoded
  import UrlCodec

  /** The colour the palette starts with. */
  const DefaultColor: string := "#3B82F6"
  /** The colour `addColor` appends. */
  const NewColor: string := "#000000"
  /** The palette never holds more colours than this. */
  const MaxColors: nat := 5

  /** The palette length bounds: one to five colours. */
  predicate InBounds(colors: seq<string>) {
    1 <= |colors| <= MaxColors
  }

  /** The palette after `addColor`: one `#000000` more when there is room. */
  function Added(colors: seq<string>): (r: seq<string>)
    ensures |colors| < MaxColors ==>
              |r| == |colors| + 1 && r[..|colors|] == colors && r[|colors|] == NewColor
    ensures |colors| >= MaxColors ==> r == colors
  {
    if |colors| < MaxColors then colors + [NewColor] else colors
  }

  /** `colors.filter((_, i) => i !== index)`: every colour whose position is
      not `index`, in order. */
  function DropIndex(colors: seq<string>, index: int): (r: seq<string>)
    ensures |r| <= |colors|
  {
    if |colors| == 0 then []
    else (if index == 0 then [] else [colors[0]]) + DropIndex(colors[1..], index - 1)
  }

  /** The filter removes exactly the entry at `index` when it is a position
      of the list, and nothing otherwise. */
  lemma {:induction false} DropIndexSlices(colors: seq<string>, index: int)
    ensures DropIndex(colors, index) ==
            if 0 <= index < |colors| then colors[..index] + colors[index + 1..] else colors
  {
    if |colors| > 0 {
      DropIndexSlices(colors[1..], index - 1);
      if 0 < index < |colors| {
        assert colors[1..][..index - 1] == colors[1..index];
        assert colors[1..][index..] == colors[index + 1..];
        assert [colors[0]] + colors[1..index] == colors[..index];
      } else if index == 0 {
        assert colors[1..] == colors[index + 1..];
      } else {
        assert colors == [colors[0]] + colors[1..];
      }
    }
  }

  /** The palette after `removeColor(index)`: with more than one colour the
      entry at `index` is dropped and the rest keep their order; with one
      colour, or an index that is no position, nothing changes. */
  function Removed(colors: seq<string>, index: int): (r: seq<string>)
    ensures |colors| > 1 && 0 <= index < |colors| ==>
              |r| == |colors| - 1 && r == colors[..index] + colors[index + 1..] &&
              (forall j :: 0 <= j < index ==> r[j] == colors[j]) &&
              (forall j :: index <= j < |r| ==> r[j] == colors[j + 1])
    ensures !(|colors| > 1 && 0 <= index < |colors|) ==> r == colors
  {
    if |colors| > 1 then
      DropIndexSlices(colors, index);
      DropIndex(colors, index)
    else colors
  }

  /** The palette after `updateColor(index, newColor)`: position `index`
      holds `newColor`; the length and every other entry are unchanged. */
  function Updated(colors: seq<string>, index: nat, newColor: string): (r: seq<string>)
    requires index < |colors|
    ensures |r| == |colors| && r[index] == newColor
    ensures forall j :: 0 <= j < |colors| && j != index ==> r[j] == colors[j]
  {
    colors[index := newColor]
  }

  /** The palette after the restore on load: the colours read from the
      address bar if there are any, otherwise the palette as it was. */
  function Restored(colors: seq<string>, search: string): (r: seq<string>)
    ensures UrlCodec.Collected(ParseSearch(search), UrlCodec.MaxIndex) == [] ==> r == colors
    ensures UrlCodec.Collected(ParseSearch(search), UrlCodec.MaxIndex) != [] ==>
              r == UrlCodec.Collected(ParseSearch(search), UrlCodec.MaxIndex)
    ensures UrlCodec.Collected(ParseSearch(search), UrlCodec.MaxIndex) != [] ==>
              1 <= |r| <= MaxColors && forall i :: 0 <= i < |r| ==> r[i] != ""
  {
    var found := UrlCodec.Collected(ParseSearch(search), UrlCodec.MaxIndex);
    if found == [] then colors else found
  }

  /** The `colors` state cell and its handlers. */
  class Palette {
    var colors: seq<string>

    /** The palette holds one to five colours. */
    ghost predicate Valid()
      reads this
    {
      InBounds(colors)
    }

    /** `useState(['#3B82F6'])`. */
    constructor ()
      ensures Valid() && colors == [DefaultColor]
    {
      colors := [DefaultColor];
    }

    /** `addColor`: append `#000000` when fewer than five colours. */
    method AddColor()
      requires Valid()
      modifies this
      ensures Valid() && colors == Added(old(colors))
    {
      if |colors| < MaxColors {
        colors := colors + [NewColor];
      }
    }

    /** `removeColor(index)`: drop the entry at `index` when more than one colour. */
    method RemoveColor(index: int)
      requires Valid()
      modifies this
      ensures Valid() && colors == Removed(old(colors), index)
    {
      if |colors| > 1 {
        DropIndexSlices(colors, index);
        colors := DropIndex(colors, index);
      }
    }

    /** The header's minus button: `removeColor(colors.length - 1)`. */
    method RemoveLast()
      requires Valid()
      modifies this
      ensures Valid() && colors == Removed(old(colors), |old(colors)| - 1)
      ensures |old(colors)| > 1 ==> colors == old(colors)[..|old(colors)| - 1]
    {
      RemoveColor(|colors| - 1);
    }

    /** `updateColor(index, newColor)`: copy the list, assign the copy's
        entry at `index`, and install the copy. */
    method UpdateColor(index: nat, newColor: string)
      requires Valid() && index < |colors|
      modifies this
      ensures Valid() && colors == Updated(old(colors), index, newColor)
    {
      var newColors := new string[|colors|](i requires 0 <= i < |colors| reads this => colors[i]);
      newColors[index] := newColor;
      colors := newColors[..];
    }

    /** The effect run on load: read the colours from the address bar and
        install them when at least one was found. */
    method RestoreFromUrl(search: string)
      requires Valid()
      modifies this
      ensures Valid() && colors == Restored(old(colors), search)
    {
      var urlColors := UrlCodec.ReadUrlColors(search);
      if |urlColors| > 0 {
        colors := urlColors;
      }
    }
  }

  /** One user action or the restore on load, as a step of the palette. */
  datatype Action =
    | Add
    | Remove(position: int)
    | Update(index: nat, color: string)
    | Restore(search: string)

  /** The actions the page can issue: an edit targets an existing position. */
  predicate Enabled(colors: seq<string>, action: Action) {
    action.Update? ==> action.index < |colors|
  }

  /** The palette after one action; each action keeps the palette within
      one to five colours. The page restores from the address bar only once,
      on mount; letting `Restore` occur any number of times, anywhere in a
      run, covers more runs than the page can produce, so what holds for
      every run holds for the page's. */
  function Step(colors: seq<string>, action: Action): (r: seq<string>)
    requires Enabled(colors, action)
    ensures InBounds(colors) ==> InBounds(r)
  {
    match action
    case Add => Added(colors)
    case Remove(position) => Removed(colors, position)
    case Update(index, color) => Updated(colors, index, color)
    case Restore(search) => Restored(colors, search)
  }

  /** Every action of `actions` can be issued in turn, starting from `colors`. */
  predicate Admissible(colors: seq<string>, actions: seq<Action>)
    decreases |actions|
  {
    |actions| == 0 ||
    (Enabled(colors, actions[0]) && Admissible(Step(colors, actions[0]), actions[1..]))
  }

  /** The palette after the actions, one after the other. */
  function Run(colors: seq<string>, actions: seq<Action>): seq<string>
    requires Admissible(colors, actions)
    decreases |actions|
  {
    if |actions| == 0 then colors else Run(Step(colors, actions[0]), actions[1..])
  }

  /** Any sequence of actions keeps the palette within one to five colours. */
  lemma {:induction false} RunInBounds(colors: seq<string>, actions: seq<Action>)
    requires InBounds(colors) && Admissible(colors, actions)
    ensures InBounds(Run(colors, actions))
    decreases |actions|
  {
    if |actions| > 0 {
      RunInBounds(Step(colors, actions[0]), actions[1..]);
    }
  }

  /** Every palette reachable from the start holds one to five colours. */
  lemma ReachableInBounds(actions: seq<Action>)
    requires Admissible([DefaultColor], actions)
    ensures InBounds(Run([DefaultColor], actions))
  {
    RunInBounds([DefaultColor], actions);
  }

  /** Repeated adds grow the palette one colour at a time up to five and
      then change nothing: n adds from a full palette leave it as it was. */
  lemma {:induction false} AddsSaturate(colors: seq<string>, n: nat)
    requires |colors| <= MaxColors
    ensures Admissible(colors, seq(n, _ => Add))
    ensures |Run(colors, seq(n, _ => Add))| ==
            if |colors| + n <= MaxColors then |colors| + n else MaxColors
    ensures |colors| == MaxColors ==> Run(colors, seq(n, _ => Add)) == colors
    decreases n
  {
    if n > 0 {
      var adds := seq(n, _ => Add);
      assert adds[0] == Add;
      assert adds[1..] == seq(n - 1, _ => Add);
      AddsSaturate(Added(colors), n - 1);
    }
  }

  /** Removing from a one-colour palette changes nothing. */
  lemma RemoveFromSingleIsNoOp(color: string, index: int)
    ensures Removed([color], index) == [color]
  {
  }

  /** After the restore on load, the palette is the encoded palette when that
      was one to five non-empty ASCII colours, whatever it was before. */
  lemma RestoreAfterSync(before: seq<string>, shared: seq<string>)
    requires InBounds(shared) && AllAscii(shared)
    requires forall i :: 0 <= i < |shared| ==> shared[i] != ""
    ensures Restored(before, UrlCodec.Search(shared)) == shared
  {
    UrlCodec.RoundTrip(shared);
  }

  /** Loading a page whose address has no colour parameters keeps the
      default palette. */
  lemma RestoreWithoutParameters(search: string)
    requires forall j :: 1 <= j <= UrlCodec.MaxIndex ==>
               Get(ParseSearch(search), UrlCodec.Key(j)).None?
    ensures Restored([DefaultColor], search) == [DefaultColor]
  {
    UrlCodec.CollectedEmptyIff(ParseSearch(search), UrlCodec.MaxIndex);
  }
}
