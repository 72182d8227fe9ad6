/** Colour tables of 8-bit indexed images: merging a foreground palette into
    the destination's (mergePalettes), the 256-entry cap, and the colour to
    index lookup built over the result. */
module Palettes {

  /** The largest colour table an 8-bit indexed image can address. */
  const MaxColors: nat := 256

  /** The palette that mergePalettes leaves behind: every incoming colour that
      is not yet present is appended, in the incoming order. */
  function Merged(mixed: seq<bv32>, incoming: seq<bv32>): seq<bv32>
    decreases |incoming|
  {
    if incoming == [] then mixed
    else Merged(if incoming[0] in mixed then mixed else mixed + [incoming[0]], incoming[1..])
  }

  /** Index of the first occurrence of c. */
  function FirstIndexOf(s: seq<bv32>, c: bv32): (i: nat)
    requires c in s
    ensures i < |s| && s[i] == c && c !in s[..i]
  {
    if s[0] == c then 0 else 1 + FirstIndexOf(s[1..], c)
  }

  /** Index of the last occurrence of c: the entry the colour-to-index map
      keeps, since later entries overwrite earlier ones. */
  function LastIndexOf(s: seq<bv32>, c: bv32): (i: nat)
    requires c in s
    ensures i < |s| && s[i] == c
    ensures forall j :: i < j < |s| ==> s[j] != c
  {
    if s[|s| - 1] == c then |s| - 1 else LastIndexOf(s[..|s| - 1], c)
  }

  /** The old palette is kept as a prefix, and at most one entry is added
      per incoming colour. */
  lemma {:induction false} MergedPrefix(mixed: seq<bv32>, incoming: seq<bv32>)
    ensures var r := Merged(mixed, incoming);
      |mixed| <= |r| <= |mixed| + |incoming| && r[..|mixed|] == mixed
    decreases |incoming|
  {
    if incoming != [] {
      var next := if incoming[0] in mixed then mixed else mixed + [incoming[0]];
      var r := Merged(mixed, incoming);
      MergedPrefix(next, incoming[1..]);
      assert r[..|mixed|] == r[..|next|][..|mixed|];
    }
  }

  /** Every old and every incoming colour ends up present. */
  lemma {:induction false} MergedContains(mixed: seq<bv32>, incoming: seq<bv32>)
    ensures forall x :: x in mixed || x in incoming ==> x in Merged(mixed, incoming)
    decreases |incoming|
  {
    if incoming != [] {
      var c, rest := incoming[0], incoming[1..];
      var next := if c in mixed then mixed else mixed + [c];
      MergedContains(next, rest);
      forall x | x in mixed || x in incoming ensures x in next || x in rest {
        if x != c && x !in mixed {
          assert x in rest;
        }
      }
    }
  }

  /** No colour appears that was neither old nor incoming. */
  lemma {:induction false} MergedFrom(mixed: seq<bv32>, incoming: seq<bv32>)
    ensures forall x :: x in Merged(mixed, incoming) ==> x in mixed || x in incoming
    decreases |incoming|
  {
    if incoming != [] {
      var c, rest := incoming[0], incoming[1..];
      var next := if c in mixed then mixed else mixed + [c];
      MergedFrom(next, rest);
      forall x | x in next ensures x in mixed || x in incoming {
        if x !in mixed {
          assert x == next[|next| - 1];
        }
      }
    }
  }

  /** Every appended colour is incoming and repeats no earlier entry. */
  lemma {:induction false} MergedFresh(mixed: seq<bv32>, incoming: seq<bv32>)
    ensures var r := Merged(mixed, incoming);
      forall j :: |mixed| <= j < |r| ==> r[j] in incoming && r[j] !in r[..j]
    decreases |incoming|
  {
    if incoming != [] {
      var c, rest := incoming[0], incoming[1..];
      var next := if c in mixed then mixed else mixed + [c];
      var r := Merged(mixed, incoming);
      MergedPrefix(next, rest);
      MergedFresh(next, rest);
      forall j | |mixed| <= j < |r| ensures r[j] in incoming && r[j] !in r[..j] {
        if j >= |next| {
          assert r[j] in rest;
        } else {
          assert r[j] == next[j] == c;
          assert r[..j] == mixed;
        }
      }
    }
  }

  /** Past the palette left by the first incoming colour, every entry
      comes from the remaining incoming colours and differs from the first. */
  lemma MergedAfterHead(mixed: seq<bv32>, incoming: seq<bv32>)
    requires incoming != []
    ensures var c, rest := incoming[0], incoming[1..];
      var next := if c in mixed then mixed else mixed + [c];
      var r := Merged(mixed, incoming);
      forall k :: |next| <= k < |r| ==> r[k] != c && r[k] in rest
  {
    var c, rest := incoming[0], incoming[1..];
    var next := if c in mixed then mixed else mixed + [c];
    var r := Merged(mixed, incoming);
    assert r == Merged(next, rest);
    MergedPrefix(next, rest);
    MergedFresh(next, rest);
    assert c in next;
    var m := FirstIndexOf(next, c);
    forall k | |next| <= k < |r| ensures r[k] != c && r[k] in rest {
      assert r[..k][m] == c;
    }
  }

  /** The appended colours keep the order of their first incoming
      occurrence. */
  lemma {:induction false} MergedOrder(mixed: seq<bv32>, incoming: seq<bv32>)
    ensures var r := Merged(mixed, incoming);
      forall i, j :: |mixed| <= i < j < |r| ==>
        r[i] in incoming && r[j] in incoming && FirstIndexOf(incoming, r[i]) < FirstIndexOf(incoming, r[j])
    decreases |incoming|
  {
    if incoming != [] {
      var c, rest := incoming[0], incoming[1..];
      var next := if c in mixed then mixed else mixed + [c];
      var r := Merged(mixed, incoming);
      MergedPrefix(next, rest);
      MergedFresh(next, rest);
      MergedFresh(mixed, incoming);
      MergedOrder(next, rest);
      MergedAfterHead(mixed, incoming);
      forall i, j | |mixed| <= i < j < |r|
        ensures FirstIndexOf(incoming, r[i]) < FirstIndexOf(incoming, r[j])
      {
        assert FirstIndexOf(incoming, r[j]) == 1 + FirstIndexOf(rest, r[j]);
        if i >= |next| {
          assert FirstIndexOf(incoming, r[i]) == 1 + FirstIndexOf(rest, r[i]);
        } else {
          assert r[i] == next[i] == c;
        }
      }
    }
  }

  /** What Merged promises: the old palette is kept as a prefix, every
      incoming colour ends up present, every appended colour comes from the
      incoming palette and is not a repeat of an earlier entry, and the
      appended colours keep the order of their first occurrence. */
  lemma MergedSpec(mixed: seq<bv32>, incoming: seq<bv32>)
    ensures var r := Merged(mixed, incoming);
      && |mixed| <= |r| <= |mixed| + |incoming|
      && r[..|mixed|] == mixed
      && (forall c :: c in incoming ==> c in r)
      && (forall c :: c in r ==> c in mixed || c in incoming)
      && (forall j :: |mixed| <= j < |r| ==> r[j] in incoming && r[j] !in r[..j])
      && (forall i, j :: |mixed| <= i < j < |r| ==> FirstIndexOf(incoming, r[i]) < FirstIndexOf(incoming, r[j]))
  {
    MergedPrefix(mixed, incoming);
    MergedContains(mixed, incoming);
    MergedFrom(mixed, incoming);
    MergedFresh(mixed, incoming);
    MergedOrder(mixed, incoming);
  }

  /** mergePalettes: extends the mixed palette in place, remembering the
      colours already present in a set. */
  method MergePalettes(mixed: seq<bv32>, incoming: seq<bv32>) returns (r: seq<bv32>)
    ensures r == Merged(mixed, incoming)
    ensures |r| >= |mixed| && r[..|mixed|] == mixed
    ensures forall c :: c in incoming ==> c in r
    ensures forall j :: |mixed| <= j < |r| ==> r[j] in incoming && r[j] !in r[..j]
  {
    var mixedColors := set c | c in mixed;
    r := mixed;
    for i := 0 to |incoming|
      invariant mixedColors == set c | c in r
      invariant Merged(r, incoming[i..]) == Merged(mixed, incoming)
    {
      assert incoming[i..][1..] == incoming[i + 1..];
      if incoming[i] !in mixedColors {
        r := r + [incoming[i]];
        mixedColors := mixedColors + {incoming[i]};
      }
    }
    assert incoming[|incoming|..] == [];
    MergedSpec(mixed, incoming);
  }

  /** `resize(256)` when the merged palette grew beyond the cap. */
  function Truncated(p: seq<bv32>): (r: seq<bv32>)
    ensures |r| <= MaxColors || r == p
    ensures |p| <= MaxColors ==> r == p
    ensures |p| > MaxColors ==> |r| == MaxColors && r == p[..MaxColors]
  {
    if |p| > MaxColors then p[..MaxColors] else p
  }

  /** The colour table an indexed destination ends up with: merged and
      truncated only when it had room left, otherwise untouched. */
  function CombinedPalette(current: seq<bv32>, incoming: seq<bv32>): (r: seq<bv32>)
    ensures |current| >= MaxColors ==> r == current
    ensures |current| < MaxColors ==> |r| <= MaxColors && |current| <= |r| && r[..|current|] == current
    ensures |current| < MaxColors ==> forall c :: c in incoming ==> c in r || |r| == MaxColors
    ensures forall c :: c in r ==> c in current || c in incoming
  {
    if |current| < MaxColors then
      MergedSpec(current, incoming);
      var m := Merged(current, incoming);
      assert |m| > MaxColors ==> m[..MaxColors][..|current|] == m[..|current|];
      assert |m| > MaxColors ==> forall c :: c in m[..MaxColors] ==> c in m;
      Truncated(m)
    else current
  }

  /** `static_cast<uint8_t>(i)`: an index reduced modulo 256, built up by
      wrapping byte increments. */
  function IndexByte(i: nat): (r: bv8)
    ensures r as int == i % 256
    ensures i < 256 ==> r as int == i
  {
    if i == 0 then 0
    else
      var b := IndexByte(i - 1);
      ModStep(i - 1);
      if b == 255 then 0
      else
        ByteSuccessor(b);
        b + 1
  }

  lemma ModStep(k: nat)
    ensures (k + 1) % 256 == if k % 256 == 255 then 0 else k % 256 + 1
  {
  }

  /** Below 255, a byte increment does not wrap. */
  lemma ByteSuccessor(b: bv8)
    requires b != 255
    ensures (b + 1) as int == b as int + 1
  {
  }

  /** The colour-to-index lookup `colorToIndex[color]`: the last index of the
      colour in the palette, and 0 (the default-inserted value) for a colour
      the palette lacks. Within a 256-entry palette the index found names
      the looked-up colour again. */
  function ColorIndex(palette: seq<bv32>, c: bv32): (r: bv8)
    ensures c !in palette ==> r == 0
    ensures c in palette && |palette| <= MaxColors ==> (r as int) < |palette| && palette[r] == c
  {
    if c in palette then
      var i := LastIndexOf(palette, c);
      IndexByte(i)
    else 0
  }

  /** Distinct colours have distinct numeric keys. */
  lemma KeyInjective(a: bv32, b: bv32)
    ensures a as int == b as int ==> a == b
  {
    if a as int == b as int {
      assert (a as int) as bv32 == a;
    }
  }

  /** The loop that fills colorToIndex: every palette entry maps to its
      index, later duplicates overwriting earlier ones. The map is keyed by
      the colour's numeric value. */
  method BuildColorToIndex(palette: seq<bv32>) returns (m: map<int, bv8>)
    ensures forall c: bv32 :: c as int in m <==> c in palette
    ensures forall k :: k in m ==> 0 <= k < 0x1_0000_0000
    ensures forall c: bv32 :: c as int in m ==> m[c as int] == ColorIndex(palette, c)
  {
    m := map[];
    for i := 0 to |palette|
      invariant forall c: bv32 :: c as int in m <==> c in palette[..i]
      invariant forall k :: k in m ==> 0 <= k < 0x1_0000_0000
      invariant forall c: bv32 :: c as int in m ==> m[c as int] == IndexByte(LastIndexOf(palette[..i], c))
    {
      ghost var done, next := palette[..i], palette[..i + 1];
      assert next[..i] == done && next == done + [palette[i]];
      m := m[palette[i] as int := IndexByte(i)];
      forall c: bv32
        ensures c as int in m <==> c in next
        ensures c as int in m ==> m[c as int] == IndexByte(LastIndexOf(next, c))
      {
        KeyInjective(c, palette[i]);
        if c != palette[i] && c as int in m {
          assert c in done;
          assert LastIndexOf(next, c) == LastIndexOf(next[..i], c);
        }
      }
    }
    assert palette[..|palette|] == palette;
  }
}
