/**
 * The formula patcher and the knob reconciliation of the Sound component
 * (src/components/Sound.tsx). A formula's signature `f(x[40..300]=100, y, …)=…`
 * declares arguments; each argument gets a knob holding a value cell. Turning a
 * knob writes the knob values back into the argument list of the formula text
 * and keeps the caret where it was relative to the text after the change.
 */
module Sound {
  import opened Wrappers
  import opened JsString
  import opened Helpers

  // ---------------------------------------------------------------------------
  // Arguments and knobs

  /** A declared range `[minText..maxText]`, with the numbers its two tokens parse to. */
  datatype Range = Range(minText: string, maxText: string, min: real, max: real)

  /** A formula argument: its name, its range if declared, and its declared default, parsed. */
  datatype Arg = Arg(id: string, range: Option<Range>, default: Option<real>)

  /** The value cell of a knob. */
  type Cell = HookState<real>

  /** A knob: its id and argument, its value cell, and the bounds of its dial. */
  datatype Knob = Knob(id: string, arg: Arg, value: Cell, min: real, max: real)

  /** The lower bound of a knob: the range's minimum, or 0 without a range. */
  function MinOf(arg: Arg): real {
    if arg.range.Some? then arg.range.value.min else 0.0
  }

  /** The upper bound of a knob: the range's maximum, or 1 without a range. */
  function MaxOf(arg: Arg): real {
    if arg.range.Some? then arg.range.value.max else 1.0
  }

  /** The value a knob starts from: the declared default, or 1 without one. */
  function DefaultValue(arg: Arg): real {
    if arg.default.Some? then arg.default.value else 1.0
  }

  /** The value a knob's cell holds after the creator ran, given the value of the previous
      knob's cell if there was a previous knob. */
  function CreatedValue(arg: Arg, prev: Option<real>): (r: real)
    ensures prev.None? ==> r == DefaultValue(arg)
    ensures arg.default.Some? ==> r == arg.default.value
    ensures prev.Some? && arg.default.None? ==> r == prev.value
  {
    if prev.None? || arg.default.Some? then DefaultValue(arg) else prev.value
  }

  /** The knob creator: bounds from the range, and the previous knob's cell if there is one
      (set to the declared default when there is one and it differs), else a fresh cell
      holding the default value. */
  method CreateKnob(id: string, arg: Arg, prev: Option<Knob>) returns (k: Knob)
    modifies if prev.Some? then {prev.value.value} else {}
    ensures k.id == id && k.arg == arg && k.min == MinOf(arg) && k.max == MaxOf(arg)
    ensures prev.Some? ==> k.value == prev.value.value
    ensures prev.None? ==> fresh(k.value) && k.value.Valid() && k.value.history == [DefaultValue(arg)]
    ensures k.value.value == CreatedValue(arg, if prev.Some? then Some(old(prev.value.value.value)) else None)
    ensures prev.Some? ==>
      k.value.triggers == old(prev.value.value.triggers)
        + (if arg.default.Some? && old(prev.value.value.value) != DefaultValue(arg) then 1 else 0)
  {
    var min, max := 0.0, 1.0;
    if arg.range.Some? {
      min, max := arg.range.value.min, arg.range.value.max;
    }
    var defaultValue := DefaultValue(arg);
    var value: Cell;
    if prev.Some? {
      value := prev.value.value;
    } else {
      value := new HookState(defaultValue);
    }
    if arg.default.Some? && prev.Some? && value.value != defaultValue {
      value.Set(defaultValue);
    }
    k := Knob(id, arg, value, min, max);
  }

  // ---------------------------------------------------------------------------
  // The knob collection

  /** The keys are distinct and in insertion order, every knob is stored under its own id,
      and no two knobs share a cell. */
  ghost predicate StoreInvariant(order: seq<string>, knobs: map<string, Knob>, cells: set<Cell>) {
    && Distinct(order)
    && (forall id :: id in knobs <==> id in order)
    && (forall id :: id in knobs ==> knobs[id].id == id && knobs[id].value in cells)
    && (forall a, b :: a in knobs && b in knobs && a != b ==> knobs[a].value != knobs[b].value)
  }

  /** Storing a knob under its id keeps the invariant, when it reuses the cell of the knob
      stored there or has a cell no stored knob has. */
  lemma StorePut(order: seq<string>, knobs: map<string, Knob>, cells: set<Cell>, k: Knob)
    requires StoreInvariant(order, knobs, cells)
    requires k.id in knobs ==> k.value == knobs[k.id].value
    requires k.id !in knobs ==> forall j :: j in knobs ==> knobs[j].value != k.value
    ensures StoreInvariant(Placed(order, k.id), knobs[k.id := k], cells + {k.value})
  {
  }

  /** The collection of knobs, keyed by argument id in insertion order. Every knob has a
      cell of its own, and `cells` holds them all. */
  class KnobStore {
    var order: seq<string>
    var knobs: map<string, Knob>
    ghost var cells: set<Cell>

    ghost predicate Valid()
      reads this
    {
      StoreInvariant(order, knobs, cells)
    }

    constructor ()
      ensures Valid() && order == [] && knobs == map[]
    {
      order := [];
      knobs := map[];
      cells := {};
    }

    /** The current value of every knob. */
    function Values(): (r: map<string, real>)
      reads this, cells
      requires Valid()
      ensures r.Keys == knobs.Keys
      ensures forall id :: id in knobs ==> r[id] == knobs[id].value.value
    {
      map id | id in knobs :: knobs[id].value.value
    }

    /** `upget(id, arg)`: the creator with the stored knob as previous knob, its result stored
        under `id`; no other knob and no other cell changes. */
    method Upget(id: string, arg: Arg) returns (k: Knob)
      requires Valid()
      modifies this, cells
      ensures Valid()
      ensures order == Placed(old(order), id)
      ensures knobs == old(knobs)[id := k]
      ensures k.id == id && k.arg == arg && k.min == MinOf(arg) && k.max == MaxOf(arg)
      ensures id in old(knobs) ==> k.value == old(knobs[id].value)
      ensures id !in old(knobs) ==> fresh(k.value)
      ensures k.value.value == CreatedValue(arg, if id in old(knobs) then Some(old(knobs[id].value.value)) else None)
      ensures forall j :: j in old(knobs) && j != id ==> knobs[j].value.value == old(knobs[j].value.value)
      ensures cells == old(cells) + {k.value}
    {
      var knobs0, order0 := knobs, order;
      ghost var cells0 := cells;
      var prev := if id in knobs0 then Some(knobs0[id]) else None;
      k := CreateKnob(id, arg, prev);
      StorePut(order0, knobs0, cells0, k);
      knobs, order := knobs0[id := k], Placed(order0, id);
      cells := cells0 + {k.value};
    }

    /** `get(id, initial)`: the stored knob; without one, the creator with `initial`. The
        creator fails when `initial` is absent (it reads the range of a missing argument),
        and then nothing is stored. */
    method Get(id: string, initial: Option<Arg>) returns (k: Option<Knob>)
      requires Valid()
      modifies this
      ensures Valid()
      ensures id in old(knobs) ==> k == Some(old(knobs[id])) && knobs == old(knobs) && order == old(order)
      ensures id !in old(knobs) && initial.None? ==> k.None? && knobs == old(knobs) && order == old(order)
      ensures id !in old(knobs) && initial.Some? ==>
        && k.Some? && fresh(k.value.value)
        && k.value.arg == initial.value && k.value.value.value == DefaultValue(initial.value)
        && knobs == old(knobs)[id := k.value] && order == Placed(old(order), id)
    {
      if id in knobs {
        return Some(knobs[id]);
      }
      if initial.None? {
        return None;
      }
      var created := CreateKnob(id, initial.value, None);
      StorePut(order, knobs, cells, created);
      knobs := knobs[id := created];
      order := Placed(order, id);
      cells := cells + {created.value};
      k := Some(created);
    }

    /** `has(id)` */
    function Has(id: string): (r: bool)
      reads this
      requires Valid()
      ensures r <==> id in order
    {
      id in knobs
    }
  }
  /** The values of the knobs of the arguments that have one, in argument order:
      `vars.filter(has).map(value)`. */
  function PresentValues(vars: seq<Arg>, values: map<string, real>): (r: seq<real>)
    ensures |r| <= |vars|
  {
    if vars == [] then []
    else (if vars[0].id in values then [values[vars[0].id]] else []) + PresentValues(vars[1..], values)
  }

  /** When every argument has a knob, there is one value per argument, in argument order. */
  lemma {:induction false} PresentValuesAll(vars: seq<Arg>, values: map<string, real>)
    requires forall i :: 0 <= i < |vars| ==> vars[i].id in values
    ensures |PresentValues(vars, values)| == |vars|
    ensures forall i :: 0 <= i < |vars| ==> PresentValues(vars, values)[i] == values[vars[i].id]
  {
    if vars != [] {
      PresentValuesAll(vars[1..], values);
    }
  }

  /** An argument without a knob contributes no value: the values are those of the other
      arguments, in their order. */
  lemma {:induction false} PresentValuesSkip(vars: seq<Arg>, values: map<string, real>, i: nat)
    requires i < |vars| && vars[i].id !in values
    ensures PresentValues(vars, values) == PresentValues(vars[..i] + vars[i + 1..], values)
    ensures |PresentValues(vars, values)| < |vars|
  {
    var rest := vars[..i] + vars[i + 1..];
    if i == 0 {
      assert rest == vars[1..];
    } else {
      var tail := vars[1..];
      PresentValuesSkip(tail, values, i - 1);
      assert tail[..i - 1] + tail[i..] == rest[1..];
      assert rest[0] == vars[0];
    }
  }

  // ---------------------------------------------------------------------------
  // split and insert

  /** `split(x, index)`: the text before and from `index`, with slice's clamping and
      negative indices. */
  function Split(x: string, index: int): (string, string) {
    (Slice(x, 0, index), SliceFrom(x, index))
  }

  /** The two halves of a split are the text before and from the clamped index, so together
      they give back the whole text. */
  lemma SplitRejoins(x: string, index: int)
    ensures var k := SliceIndex(index, |x|);
      Split(x, index).0 == x[..k] && Split(x, index).1 == x[k..]
    ensures Split(x, index).0 + Split(x, index).1 == x
    ensures 0 <= index <= |x| ==> Split(x, index).0 == x[..index] && Split(x, index).1 == x[index..]
  {
    var k := SliceIndex(index, |x|);
    assert Slice(x, 0, index) == x[..k];
  }

  /** `insert(x, index, y, offset)`: `y` in place of the `offset` characters at `index`. */
  function Insert(x: string, index: int, y: string, offset: int): string {
    Split(x, index).0 + y + Split(x, index + offset).1
  }

  /** Within the text, an insert replaces exactly the `offset` characters at `index` by `y`:
      what lies before and after them is kept. */
  lemma InsertSplices(x: string, index: int, y: string, offset: int)
    requires 0 <= index && 0 <= offset && index + offset <= |x|
    ensures var r := Insert(x, index, y, offset);
      && r == x[..index] + y + x[index + offset..]
      && |r| == |x| - offset + |y|
      && r[..index] == x[..index]
      && r[index + |y|..] == x[index + offset..]
  {
    SplitRejoins(x, index);
    SplitRejoins(x, index + offset);
  }

  // ---------------------------------------------------------------------------
  // The argument list

  /** What goes before entry `i` of `total`: nothing before the first; with more than four
      arguments a tab before odd entries and a new indented line before even ones; with four
      or fewer a new indented line before each. */
  function Separator(i: nat, total: nat): (r: string)
    ensures i == 0 <==> r == ""
    ensures i > 0 && total > 4 && i % 2 == 1 ==> r == "\t"
    ensures i > 0 && (total <= 4 || i % 2 == 0) ==> r == "\n  "
  {
    if i > 0 then (if total > 4 then (if i % 2 == 1 then "\t" else "\n  ") else "\n  ") else ""
  }

  /** `[minText..maxText]` when the argument declares a range, else nothing. */
  function RangeText(arg: Arg): string {
    match arg.range
    case None => ""
    case Some(r) => "[" + r.minText + ".." + r.maxText + "]"
  }

  /** How many decimals a value is rounded to: 2 below 10 in magnitude, else 1. */
  function Digits(v: real): nat {
    if -10.0 < v < 10.0 then 2 else 1
  }

  /** Entry `i` of `total`: separator, id, range, `=`, the formatted value. `fmt(v, d)` is the
      text of `v` rounded to `d` decimals and read back as a number. */
  function Entry(arg: Arg, v: real, i: nat, total: nat, fmt: (real, nat) -> string): string {
    Separator(i, total) + arg.id + RangeText(arg) + "=" + fmt(v, Digits(v))
  }

  /** The entries of all arguments, in argument order. */
  function Entries(vars: seq<Arg>, values: seq<real>, fmt: (real, nat) -> string): (r: seq<string>)
    requires |values| == |vars|
    ensures |r| == |vars|
    ensures forall i :: 0 <= i < |vars| ==> r[i] == Entry(vars[i], values[i], i, |vars|, fmt)
  {
    seq(|vars|, i requires 0 <= i < |vars| => Entry(vars[i], values[i], i, |vars|, fmt))
  }

  /** The new argument list: the entries joined by commas. */
  function ArgList(vars: seq<Arg>, values: seq<real>, fmt: (real, nat) -> string): string
    requires |values| == |vars|
  {
    ArrayJoin(Entries(vars, values, fmt), ",")
  }

  /** Entry `k` sits in the argument list between the entries before it and a comma, and a
      comma and the entries after it. */
  lemma ArgListPlacesEntry(vars: seq<Arg>, values: seq<real>, fmt: (real, nat) -> string, k: nat)
    requires |values| == |vars| && k < |vars|
    ensures var es := Entries(vars, values, fmt);
      ArgList(vars, values, fmt)
        == Leading(es[..k], ",") + Entry(vars[k], values[k], k, |vars|, fmt) + Trailing(es[k + 1..], ",")
  {
    JoinAround(Entries(vars, values, fmt), ",", k);
  }

  /** Turning one knob changes its entry and no other. */
  lemma OneValueOneEntry(vars: seq<Arg>, values: seq<real>, fmt: (real, nat) -> string, k: nat, v: real)
    requires |values| == |vars| && k < |vars|
    ensures Entries(vars, values[k := v], fmt)
         == Entries(vars, values, fmt)[k := Entry(vars[k], v, k, |vars|, fmt)]
  {
  }

  /** Splitting the argument list at commas gives back the entries, when no entry holds a comma. */
  lemma SplitArgList(vars: seq<Arg>, values: seq<real>, fmt: (real, nat) -> string)
    requires |values| == |vars| >= 1
    requires forall i :: 0 <= i < |vars| ==> ',' !in Entry(vars[i], values[i], i, |vars|, fmt)
    ensures StringSplit(ArgList(vars, values, fmt), ',') == Entries(vars, values, fmt)
  {
    SplitJoin(Entries(vars, values, fmt), ',');
  }

  // ---------------------------------------------------------------------------
  // The patched formula text

  /** The old argument list: in the text from the symbol's index, what lies before the first
      `)` and after the first `(` before it. */
  function OldArgs(input: string, symIndex: int): string {
    var after := Split(input, symIndex).1;
    var fndef := Split(after, IndexOf(after, ")")).0;
    Split(fndef, IndexOf(fndef, "(") + 1).1
  }

  /** The old argument list is a piece of the text, so `indexOf` finds it. */
  lemma OldArgsOccur(input: string, symIndex: int)
    ensures IndexOf(input, OldArgs(input, symIndex)) >= 0
  {
    var after := Split(input, symIndex).1;
    var close := IndexOf(after, ")");
    var open := IndexOf(Split(after, close).0, "(") + 1;
    var s, c, o := Pieces(input, symIndex, close, open);
    assert OccursAt(input, OldArgs(input, symIndex), s + o);
    IndexOfFirst(input, OldArgs(input, symIndex));
  }

  /** Whatever the two offsets, the three cuts that the argument list comes from are pieces of
      the text: from `s`, then up to `s + c`, then from `s + o`. */
  lemma Pieces(input: string, symIndex: int, close: int, open: int) returns (s: nat, c: nat, o: nat)
    ensures s == SliceIndex(symIndex, |input|) && c == SliceIndex(close, |input| - s) && o == SliceIndex(open, c)
    ensures Split(input, symIndex).1 == input[s..]
    ensures Split(Split(input, symIndex).1, close).0 == input[s..s + c]
    ensures Split(Split(Split(input, symIndex).1, close).0, open).1 == input[s + o..s + c]
    ensures OccursAt(input, Split(Split(Split(input, symIndex).1, close).0, open).1, s + o)
  {
    var n := |input|;
    assert input[0..n] == input;
    s := SplitPiece(input, 0, n, input, symIndex);
    var after := Split(input, symIndex).1;
    assert input[s..n] == input[s..];
    c := SplitPiece(input, s, n, after, close);
    var fndef := Split(after, close).0;
    o := SplitPiece(input, s, s + c, fndef, open);
    assert OccursAt(input, input[s + o..s + c], s + o);
  }

  /** Splitting a piece `x[a..b]` of a text cuts it at the clamped offset `k` within the piece. */
  lemma SplitPiece(x: string, a: nat, b: nat, piece: string, index: int) returns (k: nat)
    requires a <= b <= |x| && piece == x[a..b]
    ensures k == SliceIndex(index, b - a) && a + k <= b
    ensures Split(piece, index).0 == x[a..a + k] && Split(piece, index).1 == x[a + k..b]
  {
    k := SliceIndex(index, b - a);
    SplitRejoins(piece, index);
    assert piece[..k] == x[a..a + k];
    assert piece[k..] == x[a + k..b];
  }

  /** With a symbol index inside the text, the first `)` after it at offset `close` and the
      first `(` before that at offset `open`, the old argument list is the text between them. */
  lemma OldArgsLocated(input: string, symIndex: nat, open: nat, close: nat)
    requires symIndex <= |input|
    requires IndexOf(input[symIndex..], ")") == close
    requires IndexOf(input[symIndex..][..close], "(") == open
    ensures open < close && symIndex + close <= |input|
    ensures OldArgs(input, symIndex) == input[symIndex + open + 1..symIndex + close]
  {
    assert OccursAt(input[symIndex..][..close], "(", open);
    ArgsPieces(input, symIndex, open, close);
  }

  /** The three cuts around offsets `open` and `close` from the symbol's index. */
  lemma ArgsPieces(input: string, symIndex: nat, open: nat, close: nat)
    requires open < close && symIndex + close <= |input|
    ensures Split(input, symIndex).1 == input[symIndex..]
    ensures Split(input[symIndex..], close).0 == input[symIndex..][..close]
    ensures Split(input[symIndex..][..close], open + 1).1 == input[symIndex + open + 1..symIndex + close]
  {
    var after := input[symIndex..];
    SplitRejoins(input, symIndex);
    SplitRejoins(after, close);
    SplitRejoins(after[..close], open + 1);
    assert after[..close][open + 1..] == input[symIndex + open + 1..symIndex + close];
  }

  /** `insert(input, input.indexOf(args), newArgs, args.length)`: the first occurrence of `args`
      replaced by `newArgs`. */
  function ReplaceFirst(input: string, args: string, newArgs: string): string {
    Insert(input, IndexOf(input, args), newArgs, |args|)
  }

  /** Where `args` occurs, `newArgs` takes the place of its first occurrence and the text around
      it is kept. */
  lemma ReplaceSplices(input: string, args: string, newArgs: string)
    requires IndexOf(input, args) >= 0
    ensures var p := IndexOf(input, args);
      && p + |args| <= |input|
      && ReplaceFirst(input, args, newArgs) == input[..p] + newArgs + input[p + |args|..]
      && |ReplaceFirst(input, args, newArgs)| == |input| - |args| + |newArgs|
  {
    InsertSplices(input, IndexOf(input, args), newArgs, |args|);
  }

  /** Replacing an occurring text by itself changes nothing. */
  lemma ReplaceUnchanged(input: string, args: string)
    requires IndexOf(input, args) >= 0
    ensures ReplaceFirst(input, args, args) == input
  {
    ReplaceSplices(input, args, args);
    var p := IndexOf(input, args);
    assert input[p..p + |args|] == args;
    Rejoin(input, p, p + |args|);
  }

  /** An empty text is found at offset 0, so the replacement goes before the whole text. */
  lemma ReplaceEmpty(input: string, newArgs: string)
    ensures ReplaceFirst(input, "", newArgs) == newArgs + input
  {
    assert OccursAt(input, "", 0);
    ReplaceSplices(input, "", newArgs);
    assert input[..0] == "";
  }

  /** A caret after the replaced text, moved by the change of length, sits before the same text
      as before. */
  lemma ReplaceShiftsCaret(input: string, args: string, newArgs: string, caret: int)
    requires 0 <= IndexOf(input, args) && IndexOf(input, args) + |args| <= caret <= |input|
    ensures var moved := caret + |newArgs| - |args|;
      0 <= moved <= |ReplaceFirst(input, args, newArgs)|
      && ReplaceFirst(input, args, newArgs)[moved..] == input[caret..]
  {
    ReplaceSplices(input, args, newArgs);
    SpliceShift(input, IndexOf(input, args), |args|, newArgs, caret);
  }

  /** The text before the replaced one is kept. */
  lemma ReplaceKeepsPrefix(input: string, args: string, newArgs: string, caret: int)
    requires 0 <= caret <= IndexOf(input, args)
    ensures caret <= |ReplaceFirst(input, args, newArgs)|
    ensures ReplaceFirst(input, args, newArgs)[..caret] == input[..caret]
  {
    var p := IndexOf(input, args);
    ReplaceSplices(input, args, newArgs);
    SpliceKeeps(input, p, |args|, newArgs);
    var out := ReplaceFirst(input, args, newArgs);
    assert out[..caret] == out[..p][..caret];
  }

  /** The patched formula text: the old argument list replaced by the new one. */
  function PatchedCode(input: string, symIndex: int, newArgs: string): string {
    ReplaceFirst(input, OldArgs(input, symIndex), newArgs)
  }

  /** The patch replaces the first occurrence of the old argument list by the new one. */
  lemma PatchSplices(input: string, symIndex: int, newArgs: string)
    ensures var args := OldArgs(input, symIndex);
      var p := IndexOf(input, args);
      && 0 <= p && p + |args| <= |input|
      && PatchedCode(input, symIndex, newArgs) == input[..p] + newArgs + input[p + |args|..]
      && |PatchedCode(input, symIndex, newArgs)| == |input| - |args| + |newArgs|
  {
    OldArgsOccur(input, symIndex);
    ReplaceSplices(input, OldArgs(input, symIndex), newArgs);
  }

  /** When the old argument list does not occur earlier in the text, the patch replaces the
      argument list of the formula itself. */
  lemma PatchReplacesArgList(input: string, symIndex: nat, newArgs: string, open: nat, close: nat)
    requires symIndex <= |input|
    requires IndexOf(input[symIndex..], ")") == close
    requires IndexOf(input[symIndex..][..close], "(") == open
    requires forall k :: 0 <= k < symIndex + open + 1 ==> !OccursAt(input, OldArgs(input, symIndex), k)
    ensures PatchedCode(input, symIndex, newArgs) == input[..symIndex + open + 1] + newArgs + input[symIndex + close..]
  {
    OldArgsLocated(input, symIndex, open, close);
    ReplaceFirstAt(input, OldArgs(input, symIndex), newArgs, symIndex, open, close);
  }

  /** A text that occurs right after offset `symIndex + open` up to `symIndex + close`, and
      nowhere before, is replaced there. */
  lemma ReplaceFirstAt(input: string, args: string, newArgs: string, symIndex: nat, open: nat, close: nat)
    requires symIndex + open + 1 <= symIndex + close <= |input|
    requires args == input[symIndex + open + 1..symIndex + close]
    requires forall k :: 0 <= k < symIndex + open + 1 ==> !OccursAt(input, args, k)
    ensures ReplaceFirst(input, args, newArgs) == input[..symIndex + open + 1] + newArgs + input[symIndex + close..]
  {
    assert OccursAt(input, args, symIndex + open + 1);
    FirstOccurrence(input, args, symIndex + open + 1);
    ReplaceSplices(input, args, newArgs);
  }

  /** An occurrence with none before it is the one `indexOf` finds. */
  lemma FirstOccurrence(s: string, sub: string, k: nat)
    requires OccursAt(s, sub, k)
    requires forall j :: 0 <= j < k ==> !OccursAt(s, sub, j)
    ensures IndexOf(s, sub) == k
  {
    IndexOfFirst(s, sub);
  }

  /** Writing back the same argument list leaves the text as it was. */
  lemma PatchUnchanged(input: string, symIndex: int)
    ensures PatchedCode(input, symIndex, OldArgs(input, symIndex)) == input
  {
    OldArgsOccur(input, symIndex);
    ReplaceUnchanged(input, OldArgs(input, symIndex));
  }

  /** A caret after the old argument list, moved by the change of length, sits before the same
      text as before. */
  lemma CaretFollowsText(input: string, symIndex: int, newArgs: string, caret: int)
    requires var args := OldArgs(input, symIndex);
      IndexOf(input, args) + |args| <= caret <= |input|
    ensures var args := OldArgs(input, symIndex);
      var moved := caret + |newArgs| - |args|;
      0 <= moved <= |PatchedCode(input, symIndex, newArgs)|
      && PatchedCode(input, symIndex, newArgs)[moved..] == input[caret..]
  {
    OldArgsOccur(input, symIndex);
    ReplaceShiftsCaret(input, OldArgs(input, symIndex), newArgs, caret);
  }

  /** Replacing the `n` characters at `p` by `y` keeps the text before and after them. */
  lemma SpliceKeeps(x: string, p: nat, n: nat, y: string)
    requires p + n <= |x|
    ensures (x[..p] + y + x[p + n..])[..p] == x[..p]
    ensures (x[..p] + y + x[p + n..])[p + |y|..] == x[p + n..]
  {
    var r := x[..p] + y + x[p + n..];
    assert r == x[..p] + (y + x[p + n..]);
  }

  /** After replacing the `n` characters at `p` by `y`, a position at or after them, moved by
      the change of length, is followed by the same text. */
  lemma SpliceShift(x: string, p: nat, n: nat, y: string, caret: int)
    requires p + n <= caret <= |x|
    ensures var r, moved := x[..p] + y + x[p + n..], caret + |y| - n;
      0 <= moved <= |r| && r[moved..] == x[caret..]
  {
    var r := x[..p] + y + x[p + n..];
    SpliceKeeps(x, p, n, y);
    DropDrop(r, p + |y|, caret - p - n);
    DropDrop(x, p + n, caret - p - n);
  }

  /** A prefix of a prefix is a prefix. */
  lemma PrefixTrans<T>(a: seq<T>, b: seq<T>, c: seq<T>)
    requires |b| <= |a| && a[..|b|] == b
    requires |c| <= |b| && b[..|c|] == c
    ensures a[..|c|] == c
  {
    assert a[..|c|] == a[..|b|][..|c|];
  }

  /** A text is its three pieces around `i` and `j`. */
  lemma Rejoin(x: string, i: nat, j: nat)
    requires i <= j <= |x|
    ensures x[..i] + x[i..j] + x[j..] == x
  {
  }

  /** Dropping `a` characters and then `b` more drops `a + b`. */
  lemma DropDrop(x: string, a: nat, b: nat)
    requires a + b <= |x|
    ensures x[a..][b..] == x[a + b..]
  {
  }

  // ---------------------------------------------------------------------------
  // The component's state

  /** The element that had the focus when the patch began: whether it has the focus, and the
      selection start of its text area if it has one. */
  class Element {
    var focused: bool
    var selection: Option<int>

    constructor (focused: bool, selection: Option<int>)
      ensures this.focused == focused && this.selection == selection
    {
      this.focused := focused;
      this.selection := selection;
    }
  }

  /** How a patch ended: it failed; it is done; or it waits for a deferred step that puts
      the caret at `caret`. */
  datatype PatchStep = Rejected | Resolved | Deferred(caret: int)

  /** The ids of the arguments. */
  function IdSet(vars: seq<Arg>): (r: set<string>)
    ensures forall i :: 0 <= i < |vars| ==> vars[i].id in r
  {
    if vars == [] then {} else IdSet(vars[..|vars| - 1]) + {vars[|vars| - 1].id}
  }

  /** Every id in the set is the id of an argument. */
  lemma {:induction false} IdSetOnly(vars: seq<Arg>, id: string)
    requires id in IdSet(vars)
    ensures exists i :: 0 <= i < |vars| && vars[i].id == id
  {
    var last := |vars| - 1;
    if id != vars[last].id {
      IdSetOnly(vars[..last], id);
      var i :| 0 <= i < last && vars[..last][i].id == id;
      assert vars[i].id == id;
    }
  }

  /** With distinct ids, the id of argument `n` is not among those of the arguments before it. */
  lemma NextIdIsNew(vars: seq<Arg>, n: nat)
    requires n < |vars|
    requires forall i, j :: 0 <= i < j < |vars| ==> vars[i].id != vars[j].id
    ensures vars[n].id !in IdSet(vars[..n])
    ensures IdSet(vars[..n + 1]) == IdSet(vars[..n]) + {vars[n].id}
  {
    assert vars[..n + 1][..n] == vars[..n];
    if vars[n].id in IdSet(vars[..n]) {
      IdSetOnly(vars[..n], vars[n].id);
      assert false;
    }
  }

  /** The entry for `id`, if there is one. */
  function Lookup<V>(m: map<string, V>, id: string): (r: Option<V>)
    ensures r.Some? <==> id in m
    ensures r.Some? ==> r.value == m[id]
  {
    if id in m then Some(m[id]) else None
  }

  /** After `upget(arg.id, arg)` from the knobs `before` with values `beforeValues`, the knob of
      `arg` in `knobs` has the bounds of `arg`, reuses the cell of the knob it had, and its value
      in `vals` is what the creator left in that cell. */
  ghost predicate Upserted(knobs: map<string, Knob>, vals: map<string, real>, arg: Arg,
                           before: map<string, Knob>, beforeValues: map<string, real>)
  {
    && arg.id in knobs && arg.id in vals
    && var k := knobs[arg.id];
    && k.id == arg.id && k.arg == arg && k.min == MinOf(arg) && k.max == MaxOf(arg)
    && (arg.id in before ==> k.value == before[arg.id].value)
    && vals[arg.id] == CreatedValue(arg, Lookup(beforeValues, arg.id))
  }

  /** The knobs and knob values after `upget` of the first `n` arguments, starting from the
      knobs `before` with values `beforeValues`: the ids are the old ones and those of the
      arguments, every one of those arguments is upserted, and every other knob is as it was. */
  ghost predicate UpsertedFirst(vars: seq<Arg>, n: nat, knobs: map<string, Knob>, vals: map<string, real>,
                                before: map<string, Knob>, beforeValues: map<string, real>)
  {
    && n <= |vars|
    && beforeValues.Keys == before.Keys
    && vals.Keys == knobs.Keys
    && knobs.Keys == before.Keys + IdSet(vars[..n])
    && (forall j :: 0 <= j < n ==> Upserted(knobs, vals, vars[j], before, beforeValues))
    && (forall id :: id in before && id !in IdSet(vars[..n]) ==> knobs[id] == before[id] && vals[id] == beforeValues[id])
  }

  /** Upserting the next argument, whose id is not among the earlier ones, extends the progress
      by one. The premises on `k` and `v` are what `upget` promises. */
  lemma UpsertStep(vars: seq<Arg>, n: nat, knobs: map<string, Knob>, vals: map<string, real>,
                   before: map<string, Knob>, beforeValues: map<string, real>, k: Knob, v: real)
    requires UpsertedFirst(vars, n, knobs, vals, before, beforeValues)
    requires n < |vars|
    requires forall i, j :: 0 <= i < j < |vars| ==> vars[i].id != vars[j].id
    requires k.id == vars[n].id && k.arg == vars[n] && k.min == MinOf(vars[n]) && k.max == MaxOf(vars[n])
    requires vars[n].id in knobs ==> k.value == knobs[vars[n].id].value
    requires v == CreatedValue(vars[n], Lookup(vals, vars[n].id))
    ensures UpsertedFirst(vars, n + 1, knobs[vars[n].id := k], vals[vars[n].id := v], before, beforeValues)
  {
    var id := vars[n].id;
    NextIdIsNew(vars, n);
    assert Lookup(knobs, id) == Lookup(before, id) && Lookup(vals, id) == Lookup(beforeValues, id);
    UpsertKeepsEarlier(vars, n, knobs, vals, before, beforeValues, k, v);
  }

  /** The arguments before `n` keep their knobs and values when argument `n`, of another id, is
      upserted. */
  lemma UpsertKeepsEarlier(vars: seq<Arg>, n: nat, knobs: map<string, Knob>, vals: map<string, real>,
                           before: map<string, Knob>, beforeValues: map<string, real>, k: Knob, v: real)
    requires n < |vars|
    requires forall i, j :: 0 <= i < j < |vars| ==> vars[i].id != vars[j].id
    requires forall j :: 0 <= j < n ==> Upserted(knobs, vals, vars[j], before, beforeValues)
    ensures forall j :: 0 <= j < n ==>
      Upserted(knobs[vars[n].id := k], vals[vars[n].id := v], vars[j], before, beforeValues)
  {
  }

  /** Every argument has a knob. */
  predicate Ready<V>(vars: seq<Arg>, knobs: map<string, V>) {
    forall i :: 0 <= i < |vars| ==> vars[i].id in knobs
  }

  /** The new argument list: the entries of the arguments with the values of their knobs. */
  function NewArgs(vars: seq<Arg>, values: map<string, real>, fmt: (real, nat) -> string): string
    requires Ready(vars, values)
  {
    PresentValuesAll(vars, values);
    ArgList(vars, PresentValues(vars, values), fmt)
  }

  /** How a patch ends given the selection start before it: a caret that was set and not at 0
      is moved by `shift` in a deferred step; otherwise the patch is done. */
  function Caret(selection: Option<int>, shift: int): (r: PatchStep)
    ensures r.Deferred? <==> selection.Some? && selection.value != 0
    ensures r.Deferred? ==> r.caret == selection.value + shift
  {
    match selection
    case Some(s) => if s != 0 then Deferred(s + shift) else Resolved
    case None => Resolved
  }

  /** A map with the store's ids that gives every knob the value its cell holds is the store's values. */
  lemma ValuesAre(s: KnobStore, vals: map<string, real>)
    requires s.Valid()
    requires vals.Keys == s.knobs.Keys
    requires forall id :: id in s.knobs ==> s.knobs[id].value.value == vals[id]
    ensures s.Values() == vals
  {
  }

  /** The state of one Sound component: the formula text, the arguments and symbol index of its
      last compilation, the knob values handed to `fill`, and the knobs. */
  class SoundState {
    var code: string
    var vars: seq<Arg>
    var sym: Option<int>
    var knobValues: Option<seq<real>>
    const store: KnobStore

    ghost predicate Valid()
      reads this, store
    {
      store.Valid()
    }

    constructor (code: string)
      ensures Valid()
      ensures this.code == code && vars == [] && sym == None && knobValues == None
      ensures fresh(store) && store.knobs == map[]
    {
      this.code := code;
      vars := [];
      sym := None;
      knobValues := None;
      store := new KnobStore();
    }

    /** The effect on `vars`: `upget` for every argument, in order. Every argument then has a
        knob with its bounds, reusing the cell of the knob it had; no knob is removed, and the
        knobs of other ids and their values stay as they were. */
    method UpsertKnobs()
      requires Valid()
      requires forall i, j :: 0 <= i < j < |vars| ==> vars[i].id != vars[j].id
      modifies store, store.cells
      ensures Valid()
      ensures |old(store.order)| <= |store.order| && store.order[..|old(store.order)|] == old(store.order)
      ensures UpsertedFirst(vars, |vars|, store.knobs, store.Values(), old(store.knobs), old(store.Values()))
    {
      ghost var before, start := store.knobs, store.order;
      ghost var beforeValues := store.Values();
      ghost var vals := beforeValues;
      var args := vars;
      for i := 0 to |args|
        invariant store.Valid()
        invariant fresh(store.cells - old(store.cells))
        invariant |start| <= |store.order| && store.order[..|start|] == start
        invariant UpsertedFirst(args, i, store.knobs, vals, before, beforeValues)
        invariant forall id :: id in store.knobs ==> store.knobs[id].value.value == vals[id]
      {
        var arg := args[i];
        ghost var knobs0, vals0, order0 := store.knobs, vals, store.order;
        assert Lookup(vals0, arg.id) == if arg.id in knobs0 then Some(knobs0[arg.id].value.value) else None;
        var knob := store.Upget(arg.id, arg);
        ghost var v := knob.value.value;
        vals := vals0[arg.id := v];
        UpsertStep(args, i, knobs0, vals0, before, beforeValues, knob, v);
        forall id | id in store.knobs
          ensures store.knobs[id].value.value == vals[id]
        {
          if id != arg.id {
            assert id in knobs0;
          }
        }
        PrefixTrans(store.order, order0, start);
      }
      assert args[..|args|] == args;
      ValuesAre(store, vals);
    }

    /** The effect on knobs, vars and code: the values of the knobs of the arguments, in order. */
    method UpdateKnobValues()
      requires Valid()
      modifies this
      ensures Valid()
      ensures knobValues == Some(PresentValues(vars, store.Values()))
      ensures code == old(code) && vars == old(vars) && sym == old(sym)
    {
      knobValues := Some(PresentValues(vars, store.Values()));
    }

    /** `patch()`: writes the knob values into the argument list of the formula and blurs the
        focused element. It fails, changing nothing, when an argument has no knob or there is no
        symbol. A caret that was set and not at 0 is moved by the change of length, by a
        deferred step. */
    method Patch(active: Element, fmt: (real, nat) -> string) returns (step: PatchStep)
      requires Valid()
      modifies this, active
      ensures Valid()
      ensures vars == old(vars) && sym == old(sym) && knobValues == old(knobValues)
      ensures step.Rejected? <==> old(sym.None? || !Ready(vars, store.knobs))
      ensures step.Rejected? ==> code == old(code) && active.focused == old(active.focused)
      ensures !step.Rejected? ==>
        var newArgs, args := NewArgs(vars, old(store.Values()), fmt), OldArgs(old(code), sym.value);
        && code == PatchedCode(old(code), sym.value, newArgs)
        && !active.focused
        && step == Caret(old(active.selection), |newArgs| - |args|)
      ensures active.selection == old(active.selection)
    {
      if !Ready(vars, store.knobs) {
        return Rejected;
      }
      var newArgs := NewArgs(vars, store.Values(), fmt);
      if sym.None? {
        return Rejected;
      }
      var input := code;
      var args := OldArgs(input, sym.value);
      var next := Caret(active.selection, |newArgs| - |args|);
      input := PatchedCode(input, sym.value, newArgs);
      active.focused := false;
      code := input;
      step := next;
    }
  }

  /** The deferred step of a patch: unless a later patch aborted it, it puts the caret at
      `caret`, gives the element the focus back and resolves; an aborted step does nothing and
      never resolves. */
  method Resume(active: Element, caret: int, aborted: bool) returns (resolved: bool)
    modifies active
    ensures resolved <==> !aborted
    ensures aborted ==> active.focused == old(active.focused) && active.selection == old(active.selection)
    ensures !aborted ==> active.focused && active.selection == Some(caret)
  {
    if aborted {
      return false;
    }
    active.selection := Some(caret);
    active.focused := true;
    resolved := true;
  }
}

