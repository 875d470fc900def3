/**
 * The `fill` kernel (src/lib.wat.ts): a text generator that writes the
 * WebAssembly text of a function `$fill` for an ordered list of formula
 * variables, and the behaviour of the loop that text describes. The loop runs
 * over 32-bit unsigned `$i`, sets the global `$t` to `i / 44100`, calls the
 * formula `$f` with the variables, and stores the result as the `i`-th f32 of
 * linear memory, until `i` reaches `size`.
 */
module FillKernel {
  import opened Wrappers
  import opened JsString

  // ---------------------------------------------------------------------------
  // Constants

  /** Bytes in a WebAssembly page. */
  const PageBytes: nat := 65536
  /** The imported memory is fixed at 16 pages (minimum and maximum). */
  const Pages: nat := 16
  /** Bytes of the memory. */
  const MemoryBytes: nat := Pages * PageBytes
  /** Bytes of one f32 sample. */
  const SampleBytes: nat := 4
  /** How many f32 samples the memory holds. */
  const Slots: nat := MemoryBytes / SampleBytes
  /** The divisor of `$t`: samples per second. */
  const SampleRate: nat := 44100
  /** i32 arithmetic wraps modulo 2^32. */
  const U32: nat := 0x1_0000_0000

  // ---------------------------------------------------------------------------
  // The generator

  /** The text before the parameter list, line by line: memory import, globals and the
      head of `$fill` with its two i32 parameters. */
  const Header: string := ArrayJoin(HeaderLines, "\n")
  const HeaderLines: seq<string> := [
    ";;wasm",
    "(import \"env\" \"memory\" (memory 16 16))",
    ";;(import \"env\" \"memory\" (memory 16 16 shared))",
    "",
    "(global $pi (f32) (f32.const 3.1415927410125732))",
    "",
    "(global $pi2 (f32) (f32.const 6.2831854820251465))",
    "",
    "(global $t (mut f32) (f32.const 0))",
    "",
    "(func $fill (export \"fill\") (param $input i32) (param $size i32) "
  ]

  /** The text between the parameter list and the call's arguments, starting on a new line:
      the loop up to `(call $f`. */
  const Middle: string := "\n" + ArrayJoin(MiddleLines, "\n")
  const MiddleLines: seq<string> := [
    "  (local $i i32)",
    "",
    "  ;; i = 0",
    "  (local.set $i (i32.const 0))",
    "",
    "  ;; do",
    "  (loop $loop",
    "    ;; f32mem[i] = f(i / sampleRate)",
    "    (f32.store",
    "      (i32.mul (i32.const 4) (local.get $i))",
    "      (global.set $t",
    "        (f32.div",
    "          (f32.convert_i32_u (local.get $i))",
    "          (f32.const 44100.0)",
    "        )",
    "      )",
    "      (call $f",
    "        "
  ]

  /** The text after the call's arguments, starting on a new line: the increment of `$i`
      and the loop condition. */
  const Trailer: string := "\n" + ArrayJoin(TrailerLines, "\n")
  const TrailerLines: seq<string> := [
    "      )",
    "    )",
    "",
    "    ;; i++",
    "    (local.set $i (i32.add (local.get $i) (i32.const 1)))",
    "",
    "    ;; if (i !== 5) continue $loop",
    "    (br_if $loop (i32.ne (local.get $i) (local.get $size)))",
    "  )",
    ")",
    ""
  ]

  const ParamPrefix: string := "(param $"
  const ParamSuffix: string := " f32)"
  const ArgPrefix: string := "(local.get $"
  const ArgSuffix: string := ")"

  /** Every variable name wrapped in `pre` and `post`. */
  function Wrapped(vars: seq<string>, pre: string, post: string): (r: seq<string>)
    ensures |r| == |vars|
    ensures forall i :: 0 <= i < |vars| ==> r[i] == pre + vars[i] + post
  {
    seq(|vars|, i requires 0 <= i < |vars| => pre + vars[i] + post)
  }

  /** `vars.map(x => pre + x + post).join(' ')` */
  function Listing(vars: seq<string>, pre: string, post: string): string {
    ArrayJoin(Wrapped(vars, pre, post), " ")
  }

  /** The f32 parameters of `$fill`, one `(param $v f32)` per variable. */
  function ParamList(vars: seq<string>): string {
    Listing(vars, ParamPrefix, ParamSuffix)
  }

  /** The arguments of the call to `$f`, one `(local.get $v)` per variable. */
  function CallArgs(vars: seq<string>): string {
    Listing(vars, ArgPrefix, ArgSuffix)
  }

  /** `fill({ vars })`: the complete text of the module. */
  function FillSource(vars: seq<string>): string {
    Assemble(Header, ParamList(vars), Middle, CallArgs(vars), Trailer)
  }

  // ---------------------------------------------------------------------------
  // Reading the generated text back

  /** The characters of a WebAssembly text-format identifier after its `$`. */
  predicate IsIdChar(c: char) {
    // digits, letters and ! # $ % & ' * + - . / : < = > ? @ \ ^ _ ` | ~
    c == '!' || ('#' <= c <= '\'') || c == '*' || c == '+' || ('-' <= c <= ':')
    || ('<' <= c <= 'Z') || c == '\\' || ('^' <= c <= 'z') || c == '|' || c == '~'
  }

  /** A variable name usable as `$name` in the text format. */
  predicate IsId(v: string) {
    v != [] && forall i :: 0 <= i < |v| ==> IsIdChar(v[i])
  }

  /** The length of the identifier at the start of `s`. */
  function IdLength(s: string): (r: nat)
    ensures r <= |s|
    ensures forall i :: 0 <= i < r ==> IsIdChar(s[i])
    ensures r < |s| ==> !IsIdChar(s[r])
  {
    if s == [] || !IsIdChar(s[0]) then 0 else 1 + IdLength(s[1..])
  }

  /** The names of a space-separated listing of `pre + name + post` items, or None
      when the text is not such a listing. */
  function ReadWrapped(text: string, pre: string, post: string): (r: Option<seq<string>>)
    decreases |text|
  {
    if text == [] then Some([])
    else if !(|pre| <= |text| && text[..|pre|] == pre) then None
    else
      var rest := text[|pre|..];
      var n := IdLength(rest);
      var after := rest[n..];
      if !(|post| <= |after| && after[..|post|] == post) then None
      else
        var tail := after[|post|..];
        if tail == [] then Some([rest[..n]])
        else if tail[0] != ' ' then None
        else
          match ReadWrapped(tail[1..], pre, post)
          case Some(more) => if more == [] then None else Some([rest[..n]] + more)
          case None => None
  }

  /** A module text laid out as the generator lays it out: a header, the parameter
      listing, a middle part, the argument listing, and a trailer. */
  function Assemble(header: string, params: string, middle: string, args: string, trailer: string): string {
    header + params + middle + args + trailer
  }

  /** The parameter names and argument names of a text with the given header, middle part
      and trailer; None when the text does not have that shape. */
  function ReadShape(src: string, header: string, middle: string, trailer: string): (r: Option<(seq<string>, seq<string>)>)
  {
    if !(|header| + |trailer| <= |src| && src[..|header|] == header && src[|src| - |trailer|..] == trailer) then None
    else ReadBody(src[|header|..|src| - |trailer|], middle)
  }

  /** The names of the parameter listing, which ends at the first newline where the middle
      part starts, and of the argument listing after the middle part. */
  function ReadBody(body: string, middle: string): (r: Option<(seq<string>, seq<string>)>)
  {
    var k := CharIndex(body, '\n');
    if k < 0 then None
    else
      var rest := body[k..];
      if !(|middle| <= |rest| && rest[..|middle|] == middle) then None
      else
        match (ReadWrapped(body[..k], ParamPrefix, ParamSuffix), ReadWrapped(rest[|middle|..], ArgPrefix, ArgSuffix))
        case (Some(ps), Some(cs)) => Some((ps, cs))
        case _ => None
  }

  /** The parameter names and the call's argument names of a generated module,
      or None when the text does not have the generator's shape. */
  function ReadSource(src: string): Option<(seq<string>, seq<string>)> {
    ReadShape(src, Header, Middle, Trailer)
  }

  /** The identifier at the start of a name followed by a non-identifier character is the name. */
  lemma IdLengthOf(x: string, rest: string)
    requires forall i :: 0 <= i < |x| ==> IsIdChar(x[i])
    requires rest == [] || !IsIdChar(rest[0])
    ensures IdLength(x + rest) == |x|
  {
    var s := x + rest;
    var n := IdLength(s);
    assert forall i :: 0 <= i < |x| ==> s[i] == x[i];
    assert |x| < |s| ==> s[|x|] == rest[0];
  }

  /** The item `pre + x + post` at the start of a text, followed by `tail`, is read as `x`. */
  lemma ReadItemStart(pre: string, x: string, post: string, tail: string)
    requires IsId(x) && post != [] && !IsIdChar(post[0])
    ensures var text := pre + x + post + tail;
      text != [] && |pre| <= |text| && text[..|pre|] == pre
    ensures var rest := (pre + x + post + tail)[|pre|..];
      IdLength(rest) == |x| && rest[..|x|] == x && rest[|x|..] == post + tail
    ensures var after := post + tail;
      after[..|post|] == post && after[|post|..] == tail
  {
    var text := pre + x + post + tail;
    assert text[..|pre|] == pre;
    var rest := text[|pre|..];
    assert rest == x + (post + tail);
    IdLengthOf(x, post + tail);
    assert rest[..|x|] == x;
    var after := rest[|x|..];
    assert after == post + tail;
    assert after[..|post|] == post && after[|post|..] == tail;
  }

  /** A single item is read as its name. */
  lemma ReadLast(pre: string, x: string, post: string)
    requires IsId(x) && post != [] && !IsIdChar(post[0])
    ensures ReadWrapped(pre + x + post, pre, post) == Some([x])
  {
    ReadItemStart(pre, x, post, []);
    assert pre + x + post + [] == pre + x + post;
  }

  /** An item followed by a space and a listing is read as its name before the listing's names. */
  lemma ReadNext(pre: string, x: string, post: string, rest: string, more: seq<string>)
    requires IsId(x) && post != [] && !IsIdChar(post[0])
    requires ReadWrapped(rest, pre, post) == Some(more) && more != []
    ensures ReadWrapped(pre + x + post + " " + rest, pre, post) == Some([x] + more)
  {
    ReadItemStart(pre, x, post, " " + rest);
    ConcatAssoc(pre + x + post, " ", rest);
    assert (" " + rest)[1..] == rest;
  }

  /** The three parts of a concatenation, recovered by slicing. */
  lemma SliceThree(h: string, b: string, t: string)
    ensures var s := h + b + t;
      s[..|h|] == h && s[|s| - |t|..] == t && s[|h|..|s| - |t|] == b
  {
  }

  /** Reading a listing of identifiers gives back the identifiers, in order. */
  lemma {:induction false} ReadListing(vars: seq<string>, pre: string, post: string)
    requires forall i :: 0 <= i < |vars| ==> IsId(vars[i])
    requires post != [] && !IsIdChar(post[0])
    ensures ReadWrapped(Listing(vars, pre, post), pre, post) == Some(vars)
    decreases |vars|
  {
    var w := Wrapped(vars, pre, post);
    if |vars| == 1 {
      assert w == [pre + vars[0] + post];
      assert Listing(vars, pre, post) == pre + vars[0] + post;
      ReadLast(pre, vars[0], post);
      assert vars == [vars[0]];
    } else if |vars| > 1 {
      var x, more := vars[0], vars[1..];
      var wm := Wrapped(more, pre, post);
      assert w == [pre + x + post] + wm;
      JoinCons(pre + x + post, wm, " ");
      ReadListing(more, pre, post);
      ReadNext(pre, x, post, ArrayJoin(wm, " "), more);
      assert vars == [x] + more;
    }
  }

  /** A listing of identifiers is one line: it holds no newline. */
  lemma ListingIsOneLine(vars: seq<string>, pre: string, post: string)
    requires forall i :: 0 <= i < |vars| ==> IsId(vars[i])
    requires '\n' !in pre && '\n' !in post
    ensures '\n' !in Listing(vars, pre, post)
  {
    var w := Wrapped(vars, pre, post);
    forall i | 0 <= i < |w| ensures '\n' !in w[i] {
      assert !IsIdChar('\n');
      assert forall j :: 0 <= j < |vars[i]| ==> vars[i][j] != '\n';
      assert w[i] == pre + vars[i] + post;
    }
    JoinAvoids(w, " ", '\n');
  }

  /** Reading back any text assembled like the generator's output, with a one-line parameter
      listing and a middle part that starts a new line, gives the two listings' names. */
  lemma ReadAssembled(header: string, vars: seq<string>, middle: string, trailer: string)
    requires forall i :: 0 <= i < |vars| ==> IsId(vars[i])
    requires middle != [] && middle[0] == '\n'
    ensures ReadShape(Assemble(header, ParamList(vars), middle, CallArgs(vars), trailer), header, middle, trailer)
         == Some((vars, vars))
  {
    var ps, cs := ParamList(vars), CallArgs(vars);
    var body := ps + middle + cs;
    ConcatAssoc(header, ps, middle);
    ConcatAssoc(header, ps + middle, cs);
    SliceThree(header, body, trailer);
    ReadAssembledBody(vars, middle);
  }

  lemma ReadAssembledBody(vars: seq<string>, middle: string)
    requires forall i :: 0 <= i < |vars| ==> IsId(vars[i])
    requires middle != [] && middle[0] == '\n'
    ensures ReadBody(ParamList(vars) + middle + CallArgs(vars), middle) == Some((vars, vars))
  {
    var ps, cs := ParamList(vars), CallArgs(vars);
    ParamsAndArgs(vars);
    FirstLineBreak(ps, middle, cs);
  }

  /** The text after a name in either listing starts with a character no name contains,
      and the parameter items hold no newline. */
  lemma AffixesEndNames()
    ensures ParamSuffix != [] && !IsIdChar(ParamSuffix[0])
    ensures ArgSuffix != [] && !IsIdChar(ArgSuffix[0])
    ensures '\n' !in ParamPrefix && '\n' !in ParamSuffix
  {
    assert ParamSuffix[0] == ' ' && ArgSuffix[0] == ')';
  }

  /** Both listings read back as the variables. */
  lemma ParamsAndArgs(vars: seq<string>)
    requires forall i :: 0 <= i < |vars| ==> IsId(vars[i])
    ensures ReadWrapped(ParamList(vars), ParamPrefix, ParamSuffix) == Some(vars)
    ensures ReadWrapped(CallArgs(vars), ArgPrefix, ArgSuffix) == Some(vars)
    ensures '\n' !in ParamList(vars)
  {
    AffixesEndNames();
    ReadListing(vars, ParamPrefix, ParamSuffix);
    ReadListing(vars, ArgPrefix, ArgSuffix);
    ListingIsOneLine(vars, ParamPrefix, ParamSuffix);
  }

  /** In `ps + middle + cs`, with no newline in `ps` and a newline starting `middle`,
      the first newline ends `ps`. */
  lemma FirstLineBreak(ps: string, middle: string, cs: string)
    requires '\n' !in ps && middle != [] && middle[0] == '\n'
    ensures var body := ps + middle + cs;
      && CharIndex(body, '\n') == |ps|
      && body[..|ps|] == ps
      && body[|ps|..] == middle + cs
  {
    var body := ps + middle + cs;
    assert body[..|ps|] == ps;
    assert body[|ps|] == '\n';
    CharIndexAt(body, '\n', |ps|);
    ConcatAssoc(ps, middle, cs);
  }

  /** The generated function's f32 parameters and the arguments of its call to `$f`
      are the variables, each once and in the given order. */
  lemma SignatureMatchesCall(vars: seq<string>)
    requires forall i :: 0 <= i < |vars| ==> IsId(vars[i])
    ensures ReadSource(FillSource(vars)) == Some((vars, vars))
  {
    assert Middle[0] == '\n';
    ReadAssembled(Header, vars, Middle, Trailer);
  }

  // ---------------------------------------------------------------------------
  // The loop

  /** The value of the global `$t` for sample `i`: `i / 44100`. */
  function Time(i: int): real {
    i as real / SampleRate as real
  }

  /** How many samples a call with this `size` writes: all of them for 1..Slots;
      otherwise the loop runs until it stores past the end of memory and traps. */
  function Written(size: int): (r: nat)
    ensures 1 <= r <= Slots
    ensures 1 <= size <= Slots ==> r == size
    ensures !(1 <= size <= Slots) ==> r == Slots
  {
    if 1 <= size <= Slots then size else Slots
  }

  /** An instance of the compiled module: its linear memory viewed as f32 slots, the
      global `$t`, and the compiled formula `$f`, which reads `$t` and the variables. */
  class Instance {
    const memory: array<real>
    const f: (real, seq<real>) -> real
    var t: real

    constructor (memory: array<real>, f: (real, seq<real>) -> real)
      requires memory.Length == Slots
      ensures this.memory == memory && this.f == f && t == 0.0
    {
      this.memory := memory;
      this.f := f;
      t := 0.0;
    }

    /** `$fill(input, size, ...args)`. `size` is the 32-bit unsigned value of the i32 argument.
        `offsets` are the byte offsets stored to, in order. `input` is never read. */
    method Fill(input: int, size: int, args: seq<real>) returns (trapped: bool, ghost offsets: seq<int>)
      requires memory.Length == Slots
      requires 0 <= size < U32
      modifies this, memory
      ensures trapped <==> size == 0 || size > Slots
      ensures |offsets| == Written(size)
      ensures forall j :: 0 <= j < |offsets| ==> offsets[j] == SampleBytes * j
      ensures forall j :: 0 <= j < Written(size) ==> memory[j] == f(Time(j), args)
      ensures forall j :: Written(size) <= j < Slots ==> memory[j] == old(memory[j])
      ensures t == Time(if trapped then Slots else size - 1)
    {
      var i: int := 0;
      offsets := [];
      while true
        invariant 0 <= i <= Slots
        invariant 1 <= size <= Slots ==> i < size
        invariant |offsets| == i
        invariant forall j :: 0 <= j < i ==> offsets[j] == SampleBytes * j
        invariant forall j :: 0 <= j < i ==> memory[j] == f(Time(j), args)
        invariant forall j :: i <= j < Slots ==> memory[j] == old(memory[j])
        invariant i > 0 ==> t == Time(i - 1)
        decreases Slots - i
      {
        var addr := (SampleBytes * i) % U32;
        assert addr == SampleBytes * i;
        t := Time(i);
        var v := f(t, args);
        if addr + SampleBytes > MemoryBytes {
          trapped := true;
          return;
        }
        memory[addr / SampleBytes] := v;
        offsets := offsets + [addr];
        i := (i + 1) % U32;
        if i == size {
          trapped := false;
          return;
        }
      }
    }
  }
}
