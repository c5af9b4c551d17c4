/** Variant expansion: one object declaration becomes the list of named sprites that are printed for
    it. The modifier closures of the JavaScript code are the `Modifier` datatype; the options record
    they mutate is the `VariantOptions` class. */
module Variants {
  import opened Base
  import opened Text
  import opened Images
  import opened PuzzleScript

  // ---------------------------------------------------------------------------------------------
  // cartesianProduct (index.js:114-134)

  /** `p` extended by each element of `s`, in the order of `s`. */
  function Appended<T>(p: seq<T>, s: seq<T>): (r: seq<seq<T>>)
    ensures |r| == |s|
    decreases |s|
  {
    if s == [] then [] else Appended(p, Init(s)) + [p + [Last(s)]]
  }

  /** Every tuple of `ps` extended by every element of `s`: the tuples of `ps` vary slowest. */
  function Extend<T>(ps: seq<seq<T>>, s: seq<T>): seq<seq<T>>
    decreases |ps|
  {
    if ps == [] then [] else Extend(Init(ps), s) + Appended(Last(ps), s)
  }

  /** All tuples picking one element of each set, earlier sets varying slowest. */
  function Product<T>(sets: seq<seq<T>>): seq<seq<T>>
    decreases |sets|
  {
    if sets == [] then [[]] else Extend(Product(Init(sets)), Last(sets))
  }

  /** The product of the set sizes. */
  function Size<T>(sets: seq<seq<T>>): nat
    decreases |sets|
  {
    if sets == [] then 1 else Size(Init(sets)) * |Last(sets)|
  }

  /** `t` picks one element of each set, in order. */
  ghost predicate Tuple<T>(t: seq<T>, sets: seq<seq<T>>) {
    |t| == |sets| && forall i :: 0 <= i < |t| ==> t[i] in sets[i]
  }

  /** `ds` chooses a position in each set. */
  predicate Choice<T>(ds: seq<nat>, sets: seq<seq<T>>) {
    |ds| == |sets| && forall i :: 0 <= i < |ds| ==> ds[i] < |sets[i]|
  }

  /** The elements that the positions `ds` choose. */
  function Pick<T>(sets: seq<seq<T>>, ds: seq<nat>): (t: seq<T>)
    requires Choice(ds, sets)
    ensures |t| == |ds|
  {
    seq(|ds|, i requires 0 <= i < |ds| => sets[i][ds[i]])
  }

  /** The mixed-radix number whose digits are `ds`, the first digit the most significant. */
  function Index<T>(sets: seq<seq<T>>, ds: seq<nat>): nat
    requires Choice(ds, sets)
    decreases |ds|
  {
    if ds == [] then 0 else Index(Init(sets), Init(ds)) * |Last(sets)| + Last(ds)
  }

  lemma {:induction false} AppendedAt<T>(p: seq<T>, s: seq<T>, r: nat)
    requires r < |s|
    ensures Appended(p, s)[r] == p + [s[r]]
    decreases |s|
  {
    if r < |s| - 1 {
      AppendedAt(p, Init(s), r);
    }
  }

  lemma {:induction false} ExtendLength<T>(ps: seq<seq<T>>, s: seq<T>)
    ensures |Extend(ps, s)| == |ps| * |s|
    decreases |ps|
  {
    if ps != [] {
      ExtendLength(Init(ps), s);
      MulSucc(|ps| - 1, |s|);
    }
  }

  /** Tuple `q` of `ps` extended by element `r` of `s` sits at position `q * |s| + r`. */
  lemma {:induction false} ExtendAt<T>(ps: seq<seq<T>>, s: seq<T>, q: nat, r: nat)
    requires q < |ps| && r < |s|
    ensures q * |s| + r < |Extend(ps, s)|
    ensures Extend(ps, s)[q * |s| + r] == ps[q] + [s[r]]
    decreases |ps|
  {
    ExtendLength(ps, s);
    ExtendLength(Init(ps), s);
    MulLe(q + 1, |ps|, |s|);
    MulSucc(q, |s|);
    if q < |ps| - 1 {
      MulLe(q + 1, |ps| - 1, |s|);
      ExtendAt(Init(ps), s, q, r);
    } else {
      AppendedAt(Last(ps), s, r);
    }
  }

  /** Every position of `Extend(ps, s)` is some tuple of `ps` extended by some element of `s`. */
  lemma ExtendIndex<T>(ps: seq<seq<T>>, s: seq<T>, k: nat) returns (q: nat, r: nat)
    requires k < |Extend(ps, s)|
    ensures q < |ps| && r < |s| && k == q * |s| + r
    ensures Extend(ps, s)[k] == ps[q] + [s[r]]
  {
    var n := |s|;
    ExtendLength(ps, s);
    assert n > 0;
    DivMod(k, n);
    var quotient := k / n;
    q, r := quotient, k % n;
    if q >= |ps| {
      MulLe(|ps|, q, n);
      assert false;
    }
    ExtendAt(ps, s, q, r);
  }

  /** The number of tuples is the product of the set sizes; it is zero exactly when some set is empty,
      and the product of no sets is the one empty tuple. */
  lemma {:induction false} ProductLength<T>(sets: seq<seq<T>>)
    ensures |Product(sets)| == Size(sets)
    ensures Size(sets) == 0 <==> exists i :: 0 <= i < |sets| && sets[i] == []
    ensures Product<T>([]) == [[]]
    decreases |sets|
  {
    if sets != [] {
      var init := Init(sets);
      ProductLength(init);
      ExtendLength(Product(init), Last(sets));
      if Size(sets) == 0 {
        if Last(sets) != [] {
          var i :| 0 <= i < |init| && init[i] == [];
          assert sets[i] == [];
        }
      } else {
        forall i | 0 <= i < |sets| ensures sets[i] != [] {
          if i < |init| {
            assert sets[i] == init[i];
          }
        }
      }
    }
  }

  /** Every tuple of the product picks one element of each set. */
  lemma {:induction false} ProductSound<T>(sets: seq<seq<T>>, k: nat)
    requires k < |Product(sets)|
    ensures Tuple(Product(sets)[k], sets)
    decreases |sets|
  {
    if sets != [] {
      var init := Init(sets);
      var q, r := ExtendIndex(Product(init), Last(sets), k);
      ProductSound(init, q);
      var t := Product(sets)[k];
      forall i | 0 <= i < |t| ensures t[i] in sets[i] {
        if i < |init| {
          assert t[i] == Product(init)[q][i] && sets[i] == init[i];
        }
      }
    }
  }

  /** Every tuple picking one element of each set occurs in the product. */
  lemma {:induction false} ProductComplete<T>(sets: seq<seq<T>>, t: seq<T>)
    requires Tuple(t, sets)
    ensures t in Product(sets)
    decreases |sets|
  {
    if sets != [] {
      var init, last := Init(sets), Last(sets);
      assert Tuple(Init(t), init) by {
        forall i | 0 <= i < |Init(t)| ensures Init(t)[i] in init[i] {
          assert Init(t)[i] == t[i] && init[i] == sets[i];
        }
      }
      ProductComplete(init, Init(t));
      var q :| 0 <= q < |Product(init)| && Product(init)[q] == Init(t);
      var r :| 0 <= r < |last| && last[r] == Last(t);
      ExtendAt(Product(init), last, q, r);
      assert t == Init(t) + [Last(t)];
      assert Product(sets) == Extend(Product(init), last);
      assert Product(sets)[q * |last| + r] == t;
    }
  }

  /** The product lists the tuples in lexicographic order of positions: the tuple choosing positions
      `ds` is the one at the mixed-radix position `Index(sets, ds)`. */
  lemma {:induction false} ProductAt<T>(sets: seq<seq<T>>, ds: seq<nat>)
    requires Choice(ds, sets)
    ensures Index(sets, ds) < Size(sets) && Index(sets, ds) < |Product(sets)|
    ensures Product(sets)[Index(sets, ds)] == Pick(sets, ds)
    decreases |ds|
  {
    ProductLength(sets);
    if ds != [] {
      var init, last := Init(sets), Last(sets);
      assert Choice(Init(ds), init) by {
        forall i | 0 <= i < |Init(ds)| ensures Init(ds)[i] < |init[i]| {
          assert Init(ds)[i] == ds[i] && init[i] == sets[i];
        }
      }
      ProductAt(init, Init(ds));
      ProductLength(init);
      ExtendAt(Product(init), last, Index(init, Init(ds)), Last(ds));
      var t := Pick(sets, ds);
      assert Pick(init, Init(ds)) + [last[Last(ds)]] == t;
    }
  }

  /** Level `k` of the queue: all prefixes of length `k`, in the order the queue holds them. */
  ghost function Level<T>(sets: seq<seq<T>>, k: nat): seq<seq<T>>
    requires k <= |sets|
  {
    Product(sets[..k])
  }

  /** The queue once the first `j` prefixes of level `k` have been taken from it: the rest of level
      `k`, then the extensions of the prefixes taken (none once the prefixes are complete). */
  ghost function Pending<T>(sets: seq<seq<T>>, k: nat, j: nat): seq<seq<T>>
    requires k <= |sets| && j <= |Level(sets, k)|
  {
    Level(sets, k)[j..] + (if k < |sets| then Extend(Level(sets, k)[..j], sets[k]) else [])
  }

  /** The results once the first `j` prefixes of level `k` have been taken. */
  ghost function Finished<T>(sets: seq<seq<T>>, k: nat, j: nat): seq<seq<T>>
    requires k <= |sets| && j <= |Level(sets, k)|
  {
    if k < |sets| then [] else Level(sets, k)[..j]
  }

  /** The queue is at level `k`, and some prefix of that level is still in it unless it is the last. */
  ghost predicate Normal<T>(sets: seq<seq<T>>, k: nat, j: nat) {
    k <= |sets| && j <= |Level(sets, k)| && (k < |sets| ==> j < |Level(sets, k)|)
  }

  lemma QueueFront<T>(sets: seq<seq<T>>, k: nat, j: nat)
    requires Normal(sets, k, j) && Pending(sets, k, j) != []
    ensures j < |Level(sets, k)| && Pending(sets, k, j)[0] == Level(sets, k)[j]
    ensures |Level(sets, k)[j]| == k
  {
    ProductSound(sets[..k], j);
  }

  lemma CompleteStep<T>(sets: seq<seq<T>>, k: nat, j: nat)
    requires k == |sets| && j < |Level(sets, k)|
    ensures Pending(sets, k, j)[1..] == Pending(sets, k, j + 1)
    ensures Finished(sets, k, j) + [Level(sets, k)[j]] == Finished(sets, k, j + 1)
  {
    var level := Level(sets, k);
    assert level[..j + 1] == level[..j] + [level[j]];
  }

  lemma ExtendStep<T>(sets: seq<seq<T>>, k: nat, j: nat)
    requires k < |sets| && j < |Level(sets, k)|
    ensures Pending(sets, k, j)[1..] + Appended(Level(sets, k)[j], sets[k]) == Pending(sets, k, j + 1)
    ensures Finished(sets, k, j + 1) == Finished(sets, k, j) == []
  {
    var level := Level(sets, k);
    assert Init(level[..j + 1]) == level[..j] && Last(level[..j + 1]) == level[j];
    assert level[j + 1..] == level[j..][1..];
  }

  lemma NextLevel<T>(sets: seq<seq<T>>, k: nat)
    requires k < |sets|
    ensures Pending(sets, k, |Level(sets, k)|) == Pending(sets, k + 1, 0)
    ensures Finished(sets, k, |Level(sets, k)|) == Finished(sets, k + 1, 0) == []
  {
    assert Init(sets[..k + 1]) == sets[..k];
    assert Level(sets, k)[..|Level(sets, k)|] == Level(sets, k);
  }

  lemma AllDone<T>(sets: seq<seq<T>>, k: nat, j: nat)
    requires Normal(sets, k, j) && Pending(sets, k, j) == []
    ensures Finished(sets, k, j) == Product(sets)
  {
    assert sets[..|sets|] == sets;
    assert Level(sets, k)[..|Level(sets, k)|] == Level(sets, k);
  }

  lemma AppendedSnoc<T>(p: seq<T>, s: seq<T>, e: nat)
    requires e < |s|
    ensures Appended(p, s[..e + 1]) == Appended(p, s[..e]) + [p + [s[e]]]
  {
    assert Init(s[..e + 1]) == s[..e];
  }

  /** Moves on to the next level once every prefix of this one has been taken from the queue. */
  lemma {:induction false} Advance<T>(sets: seq<seq<T>>, k: nat, j: nat) returns (k': nat, j': nat)
    requires k <= |sets| && j <= |Level(sets, k)|
    ensures Normal(sets, k', j')
    ensures Pending(sets, k', j') == Pending(sets, k, j) && Finished(sets, k', j') == Finished(sets, k, j)
    ensures k' > k || (k' == k && j' == j)
    decreases |sets| - k
  {
    if k < |sets| && j == |Level(sets, k)| {
      NextLevel(sets, k);
      k', j' := Advance(sets, k + 1, 0);
    } else {
      k', j' := k, j;
    }
  }

  /** `for (const element of set) queue.push([...prefix, element])`. */
  method PushExtensions<T>(queue: seq<seq<T>>, prefix: seq<T>, elements: seq<T>) returns (q: seq<seq<T>>)
    ensures q == queue + Appended(prefix, elements)
  {
    q := queue;
    for e := 0 to |elements|
      invariant q == queue + Appended(prefix, elements[..e])
    {
      AppendedSnoc(prefix, elements, e);
      q := q + [prefix + [elements[e]]];
    }
    assert elements[..|elements|] == elements;
  }

  /** `cartesianProduct(sets)`: a queue of prefixes, seeded with the empty prefix; a complete prefix
      is a result, any other is replaced at the back of the queue by its extensions. */
  method CartesianProduct<T>(sets: seq<seq<T>>) returns (results: seq<seq<T>>)
    ensures results == Product(sets)
    ensures sets == [] ==> results == [[]]
  {
    results := [];
    var queue: seq<seq<T>> := [[]];
    ghost var k, j := 0, 0;  // the queue is at level k, position j
    assert sets[..0] == [];
    while |queue| > 0
      invariant Normal(sets, k, j) && queue == Pending(sets, k, j) && results == Finished(sets, k, j)
      decreases |sets| - k, |Level(sets, k)| - j
    {
      QueueFront(sets, k, j);
      var prefix := queue[0];
      queue := queue[1..];
      var setIndex := |prefix|;
      if setIndex >= |sets| {
        CompleteStep(sets, k, j);
        results := results + [prefix];
        j := j + 1;
      } else {
        queue := PushExtensions(queue, prefix, sets[setIndex]);
        ExtendStep(sets, k, j);
        k, j := Advance(sets, k, j + 1);
      }
    }
    AllDone(sets, k, j);
  }

  // ---------------------------------------------------------------------------------------------
  // Object declarations and modifiers (index.js:28-112)

  datatype Position = Position(x: int, y: int)

  /** One entry of the object declarations: a falsy `sequence` is 0, a missing `blend` is `None`,
      and a `null` blend entry is `None` inside the list. */
  datatype ObjectDefinition = ObjectDefinition(
    position: Position,
    flip: bool,
    sequence: nat,
    blend: Option<seq<Option<string>>>,
    omit: bool)

  type Definitions = map<string, ObjectDefinition>

  datatype Variant = Variant(name: string, sprite: Bitmap)

  /** The closures `getVariantModifierSets` builds, one constructor per kind. */
  datatype Modifier =
    | Face(horizontal: bool)        // suffix "R" or "L" and the flip flag
    | Shift(index: nat)             // moves the source cell right and adds the index as a suffix
    | Keep                          // a `null` blend entry: changes nothing
    | BlendWith(variant: Variant)   // blends with that variant's sprite and adds its name

  /** The options record: the source cell, the suffixes, the flip flag and the blend sprite. */
  datatype Options = Options(x: int, y: int, suffixes: seq<string>, horizontal: bool, blendSprite: Option<Bitmap>)

  /** The record each combination starts from (index.js:34-42). */
  function Seed(p: Position): Options {
    Options(p.x, p.y, [], false, None)
  }

  /** Running one modifier closure. */
  function Step(o: Options, m: Modifier): Options {
    match m
    case Face(h) => o.(suffixes := o.suffixes + [if h then "L" else "R"], horizontal := h)
    case Shift(i) => o.(x := o.x + i, suffixes := o.suffixes + [NatToString(i)])
    case Keep => o
    case BlendWith(v) => o.(blendSprite := Some(v.sprite), suffixes := o.suffixes + [v.name])
  }

  /** `variantModifiers.forEach(m => m(options))`. */
  function Applied(o: Options, ms: seq<Modifier>): Options
    decreases |ms|
  {
    if ms == [] then o else Step(Applied(o, Init(ms)), Last(ms))
  }

  /** The suffixes one modifier adds. */
  function Suffix(m: Modifier): seq<string> {
    match m
    case Face(h) => [if h then "L" else "R"]
    case Shift(i) => [NatToString(i)]
    case Keep => []
    case BlendWith(v) => [v.name]
  }

  function Suffixes(ms: seq<Modifier>): seq<string>
    decreases |ms|
  {
    if ms == [] then [] else Suffix(ms[0]) + Suffixes(ms[1..])
  }

  /** How far the modifiers move the source cell to the right. */
  function Shifted(ms: seq<Modifier>): nat
    decreases |ms|
  {
    if ms == [] then 0 else (if ms[0].Shift? then ms[0].index else 0) + Shifted(ms[1..])
  }

  /** The mirror flag of the last `Face` modifier, `None` when there is none. */
  function LastFace(ms: seq<Modifier>): Option<bool>
    decreases |ms|
  {
    if ms == [] then None else if Last(ms).Face? then Some(Last(ms).horizontal) else LastFace(Init(ms))
  }

  /** The sprite of the last `BlendWith` modifier, `None` when there is none. */
  function LastBlend(ms: seq<Modifier>): Option<Bitmap>
    decreases |ms|
  {
    if ms == [] then None else if Last(ms).BlendWith? then Some(Last(ms).variant.sprite) else LastBlend(Init(ms))
  }

  /** The blend sprite the modifiers leave has the cell size when all of theirs have it. */
  lemma {:induction false} LastBlendSized(ms: seq<Modifier>, w: nat, h: nat)
    requires SizedModifiers(ms, w, h)
    ensures LastBlend(ms).Some? ==> Sized(LastBlend(ms).value, w, h)
    decreases |ms|
  {
    if ms != [] && !Last(ms).BlendWith? {
      LastBlendSized(Init(ms), w, h);
    }
  }

  lemma {:induction false} SuffixesSnoc(ms: seq<Modifier>, m: Modifier)
    ensures Suffixes(ms + [m]) == Suffixes(ms) + Suffix(m)
    ensures Shifted(ms + [m]) == Shifted(ms) + (if m.Shift? then m.index else 0)
    decreases |ms|
  {
    if ms != [] {
      assert (ms + [m])[1..] == ms[1..] + [m];
      SuffixesSnoc(ms[1..], m);
    } else {
      assert [m][1..] == [];
    }
  }

  /** Applying modifiers appends their suffixes in application order, moves the source cell right by
      the sum of the sequence indices and never moves it vertically. */
  lemma {:induction false} AppliedEffect(o: Options, ms: seq<Modifier>)
    ensures Applied(o, ms).suffixes == o.suffixes + Suffixes(ms)
    ensures Applied(o, ms).x == o.x + Shifted(ms) && Applied(o, ms).y == o.y
    decreases |ms|
  {
    if ms != [] {
      AppliedEffect(o, Init(ms));
      SuffixesSnoc(Init(ms), Last(ms));
      assert Init(ms) + [Last(ms)] == ms;
    }
  }

  /** Applying modifiers leaves the mirror flag of the last `Face` and the sprite of the last
      `BlendWith`, or the record's own when there is none. */
  lemma {:induction false} AppliedFlags(o: Options, ms: seq<Modifier>)
    ensures Applied(o, ms).horizontal == if LastFace(ms).Some? then LastFace(ms).value else o.horizontal
    ensures Applied(o, ms).blendSprite == if LastBlend(ms).Some? then LastBlend(ms) else o.blendSprite
    decreases |ms|
  {
    if ms != [] {
      AppliedFlags(o, Init(ms));
    }
  }

  /** The record `getObjectVariants` builds for one combination and that the closures mutate. */
  class VariantOptions {
    var sourceX: int
    var sourceY: int
    var suffixes: seq<string>
    var horizontal: bool
    var blendSprite: Option<Bitmap>

    function Value(): Options
      reads this
    {
      Options(sourceX, sourceY, suffixes, horizontal, blendSprite)
    }

    constructor (position: Position)
      ensures Value() == Seed(position)
    {
      sourceX := position.x;
      sourceY := position.y;
      suffixes := [];
      horizontal := false;
      blendSprite := None;
    }

    /** Calls the closure `m` on this record. */
    method Apply(m: Modifier)
      modifies this
      ensures Value() == Step(old(Value()), m)
    {
      match m
      case Face(h) =>
        suffixes := suffixes + [if h then "L" else "R"];
        horizontal := h;
      case Shift(i) =>
        sourceX := sourceX + i;
        suffixes := suffixes + [NatToString(i)];
      case Keep =>
      case BlendWith(v) =>
        blendSprite := Some(v.sprite);
        suffixes := suffixes + [v.name];
    }
  }

  /** The sprite grid: every cell has the same size, so any cell can be blended with any other. */
  datatype Sheet = Sheet(cells: seq<seq<Bitmap>>, width: nat, height: nat) {
    predicate Valid() {
      forall y, x :: 0 <= y < |cells| && 0 <= x < |cells[y]| ==> Sized(cells[y][x], width, height)
    }
  }

  /** The grid that `unpackSpriteMap` returns is a sheet of its cell size. */
  lemma GridSheet(sheet: Bitmap, sw: nat, sh: nat)
    requires sheet.Valid() && sw > 0 && sh > 0
    ensures Sheet(SpriteGrid(sheet, sw, sh), sw, sh).Valid()
  {
    GridUniform(sheet, sw, sh);
  }

  /** `sprites[y][x]`: a position outside the grid is the TypeError of reading a missing cell. */
  function Lookup(sheet: Sheet, x: int, y: int): (r: Result<Bitmap>)
    requires sheet.Valid()
    ensures r.Ok? ==> Sized(r.value, sheet.width, sheet.height)
  {
    if 0 <= y < |sheet.cells| && 0 <= x < |sheet.cells[y]| then Ok(sheet.cells[y][x]) else Err(MissingCell(x, y))
  }

  /** Every blend sprite the modifiers carry has the sheet's cell size. */
  predicate SizedModifiers(ms: seq<Modifier>, w: nat, h: nat) {
    forall i :: 0 <= i < |ms| && ms[i].BlendWith? ==> Sized(ms[i].variant.sprite, w, h)
  }

  predicate SizedSets(sets: seq<seq<Modifier>>, w: nat, h: nat) {
    forall i :: 0 <= i < |sets| ==> SizedModifiers(sets[i], w, h)
  }

  predicate SizedVariants(vs: seq<Variant>, w: nat, h: nat) {
    forall i :: 0 <= i < |vs| ==> Sized(vs[i].sprite, w, h)
  }

  lemma {:induction false} AppliedSized(o: Options, ms: seq<Modifier>, w: nat, h: nat)
    requires o.blendSprite.Some? ==> Sized(o.blendSprite.value, w, h)
    requires SizedModifiers(ms, w, h)
    ensures Applied(o, ms).blendSprite.Some? ==> Sized(Applied(o, ms).blendSprite.value, w, h)
    decreases |ms|
  {
    if ms != [] {
      AppliedSized(o, Init(ms), w, h);
    }
  }

  lemma ProductSized(sets: seq<seq<Modifier>>, w: nat, h: nat)
    requires SizedSets(sets, w, h)
    ensures forall k :: 0 <= k < |Product(sets)| ==> SizedModifiers(Product(sets)[k], w, h)
  {
    forall k | 0 <= k < |Product(sets)| ensures SizedModifiers(Product(sets)[k], w, h) {
      ProductSound(sets, k);
    }
  }

  /** The variant for one combination (index.js:33-55): the modifiers run on a fresh record, then the
      named cell is flipped and blended. */
  function MakeVariant(id: string, pos: Position, sheet: Sheet, ms: seq<Modifier>): (r: Result<Variant>)
    requires sheet.Valid() && SizedModifiers(ms, sheet.width, sheet.height)
    ensures r.Ok? ==> Sized(r.value.sprite, sheet.width, sheet.height)
  {
    var o := Applied(Seed(pos), ms);
    AppliedSized(Seed(pos), ms, sheet.width, sheet.height);
    match Lookup(sheet, o.x, o.y)
    case Err(e) => Err(e)
    case Ok(cell) =>
      Ok(Variant(Join([id] + o.suffixes, "_"), BlendBitmap(FlipBitmap(cell, o.horizontal), o.blendSprite)))
  }

  /** `combinations.map(...)`: the first combination whose cell is missing throws. */
  function VariantsOf(id: string, pos: Position, sheet: Sheet, combos: seq<seq<Modifier>>): (r: Result<seq<Variant>>)
    requires sheet.Valid()
    requires forall k :: 0 <= k < |combos| ==> SizedModifiers(combos[k], sheet.width, sheet.height)
    ensures r.Ok? ==> |r.value| == |combos| && SizedVariants(r.value, sheet.width, sheet.height)
    decreases |combos|
  {
    if combos == [] then Ok([])
    else
      match VariantsOf(id, pos, sheet, Init(combos))
      case Err(e) => Err(e)
      case Ok(vs) =>
        match MakeVariant(id, pos, sheet, Last(combos))
        case Err(e) => Err(e)
        case Ok(v) => Ok(vs + [v])
  }

  /** An id's rank; ids without one rank lowest. */
  function Rank(rank: map<string, nat>, id: string): nat {
    if id in rank then rank[id] else 0
  }

  predicate Refers(d: ObjectDefinition, b: string) {
    d.blend.Some? && Some(b) in d.blend.value
  }

  /** The blend references form no cycle: each declaration references only ids of lower rank. */
  ghost predicate Ranked(defs: Definitions, rank: map<string, nat>) {
    forall id, b :: id in defs && Refers(defs[id], b) ==> Rank(rank, b) < Rank(rank, id)
  }

  /** The entries reference only ids ranked below `bound`. */
  predicate Below(entries: seq<Option<string>>, rank: map<string, nat>, bound: nat) {
    forall i :: 0 <= i < |entries| && entries[i].Some? ==> Rank(rank, entries[i].value) < bound
  }

  lemma RanksBelow(defs: Definitions, rank: map<string, nat>, id: string)
    requires Ranked(defs, rank) && id in defs && defs[id].blend.Some?
    ensures Below(defs[id].blend.value, rank, Rank(rank, id))
  {
    var entries := defs[id].blend.value;
    forall i | 0 <= i < |entries| && entries[i].Some? ensures Rank(rank, entries[i].value) < Rank(rank, id) {
      assert Refers(defs[id], entries[i].value);
    }
  }

  const FlipSet: seq<Modifier> := [Face(false), Face(true)]

  /** The sequence alternatives `0 .. n - 1`. */
  function SequenceSet(n: nat): (s: seq<Modifier>)
    ensures |s| == n
  {
    seq(n, i requires 0 <= i => Shift(i))
  }

  function BlendAlternatives(vs: seq<Variant>): (ms: seq<Modifier>)
    ensures |ms| == |vs|
  {
    seq(|vs|, i requires 0 <= i < |vs| => BlendWith(vs[i]))
  }

  /** `getObjectVariants(id, ...)`: an unknown id is a TypeError; otherwise one variant per combination
      of the modifier sets. */
  function ObjectVariants(id: string, defs: Definitions, sheet: Sheet, rank: map<string, nat>): (r: Result<seq<Variant>>)
    requires sheet.Valid() && Ranked(defs, rank)
    ensures r.Ok? ==> SizedVariants(r.value, sheet.width, sheet.height)
    decreases Rank(rank, id), 2, 0
  {
    if id !in defs then Err(UnknownObject(id))
    else
      match ModifierSets(id, defs, sheet, rank)
      case Err(e) => Err(e)
      case Ok(sets) =>
        ProductSized(sets, sheet.width, sheet.height);
        VariantsOf(id, defs[id].position, sheet, Product(sets))
  }

  /** `getVariantModifierSets(id, ...)`: the flip set, the sequence set and the blend set, each when
      declared, in that order. */
  function ModifierSets(id: string, defs: Definitions, sheet: Sheet, rank: map<string, nat>): (r: Result<seq<seq<Modifier>>>)
    requires sheet.Valid() && Ranked(defs, rank) && id in defs
    ensures r.Ok? ==> SizedSets(r.value, sheet.width, sheet.height)
    decreases Rank(rank, id), 1, 0
  {
    var d := defs[id];
    match d.blend
    case None => Ok(FixedSets(d))
    case Some(entries) =>
      RanksBelow(defs, rank, id);
      match BlendSet(entries, Rank(rank, id), defs, sheet, rank)
      case Err(e) => Err(e)
      case Ok(alternatives) => Ok(FixedSets(d) + [alternatives])
  }

  /** The flip set and the sequence set, each when declared. */
  function FixedSets(d: ObjectDefinition): seq<seq<Modifier>> {
    (if d.flip then [FlipSet] else []) + (if d.sequence > 0 then [SequenceSet(d.sequence)] else [])
  }

  /** The `reduce` over the blend entries: a `null` entry adds the no-op, an id adds one alternative per
      variant of that object, in order. */
  function BlendSet(entries: seq<Option<string>>, bound: nat, defs: Definitions, sheet: Sheet, rank: map<string, nat>)
    : (r: Result<seq<Modifier>>)
    requires sheet.Valid() && Ranked(defs, rank) && Below(entries, rank, bound)
    ensures r.Ok? ==> SizedModifiers(r.value, sheet.width, sheet.height)
    decreases bound, 0, |entries|
  {
    if entries == [] then Ok([])
    else
      match BlendSet(Init(entries), bound, defs, sheet, rank)
      case Err(e) => Err(e)
      case Ok(acc) =>
        match Last(entries)
        case None => Ok(acc + [Keep])
        case Some(b) =>
          match ObjectVariants(b, defs, sheet, rank)
          case Err(e) => Err(e)
          case Ok(vs) => Ok(acc + BlendAlternatives(vs))
  }

  // ---------------------------------------------------------------------------------------------
  // What the expansion promises

  /** Variant `k` is built from combination `k`. */
  lemma {:induction false} VariantsOfAt(id: string, pos: Position, sheet: Sheet, combos: seq<seq<Modifier>>, k: nat)
    requires sheet.Valid()
    requires forall i :: 0 <= i < |combos| ==> SizedModifiers(combos[i], sheet.width, sheet.height)
    requires VariantsOf(id, pos, sheet, combos).Ok? && k < |combos|
    ensures MakeVariant(id, pos, sheet, combos[k]) == Ok(VariantsOf(id, pos, sheet, combos).value[k])
    decreases |combos|
  {
    if k < |combos| - 1 {
      VariantsOfAt(id, pos, sheet, Init(combos), k);
    }
  }

  /** An object's variants are those of the combinations of its modifier sets. */
  lemma Expansion(id: string, defs: Definitions, sheet: Sheet, rank: map<string, nat>)
    requires sheet.Valid() && Ranked(defs, rank) && id in defs && ModifierSets(id, defs, sheet, rank).Ok?
    ensures forall k :: 0 <= k < |Product(ModifierSets(id, defs, sheet, rank).value)| ==>
              SizedModifiers(Product(ModifierSets(id, defs, sheet, rank).value)[k], sheet.width, sheet.height)
    ensures ObjectVariants(id, defs, sheet, rank)
            == VariantsOf(id, defs[id].position, sheet, Product(ModifierSets(id, defs, sheet, rank).value))
  {
    ProductSized(ModifierSets(id, defs, sheet, rank).value, sheet.width, sheet.height);
  }

  /** The modifier sets without a `blend` entry. */
  lemma FixedOnly(id: string, defs: Definitions, sheet: Sheet, rank: map<string, nat>)
    requires sheet.Valid() && Ranked(defs, rank) && id in defs && defs[id].blend.None?
    ensures ModifierSets(id, defs, sheet, rank) == Ok(FixedSets(defs[id]))
  {
  }

  /** The modifier sets with a `blend` entry: the blend set comes last. */
  lemma BlendLast(id: string, defs: Definitions, sheet: Sheet, rank: map<string, nat>)
    requires sheet.Valid() && Ranked(defs, rank) && id in defs && defs[id].blend.Some?
    ensures Below(defs[id].blend.value, rank, Rank(rank, id))
    ensures var alternatives := BlendSet(defs[id].blend.value, Rank(rank, id), defs, sheet, rank);
            ModifierSets(id, defs, sheet, rank)
            == if alternatives.Ok? then Ok(FixedSets(defs[id]) + [alternatives.value]) else Err(alternatives.error)
  {
    RanksBelow(defs, rank, id);
  }

  /** The modifier sets come in the order flip, sequence, blend, each present exactly when declared:
      `[R, L]` first when flipped, `0 .. n-1` next when sequenced, the blend set last. */
  lemma SetOrder(id: string, defs: Definitions, sheet: Sheet, rank: map<string, nat>)
    requires sheet.Valid() && Ranked(defs, rank) && id in defs && ModifierSets(id, defs, sheet, rank).Ok?
    ensures var sets, d := ModifierSets(id, defs, sheet, rank).value, defs[id];
            |sets| == |FixedSets(d)| + (if d.blend.Some? then 1 else 0)
            && |FixedSets(d)| == (if d.flip then 1 else 0) + (if d.sequence > 0 then 1 else 0)
    ensures var sets, d := ModifierSets(id, defs, sheet, rank).value, defs[id];
            d.flip ==> sets[0] == FlipSet
    ensures var sets, d := ModifierSets(id, defs, sheet, rank).value, defs[id];
            d.sequence > 0 ==> sets[|FixedSets(d)| - 1] == SequenceSet(d.sequence)
    ensures var d := defs[id]; d.blend.Some? ==> Below(d.blend.value, rank, Rank(rank, id))
    ensures var sets, d := ModifierSets(id, defs, sheet, rank).value, defs[id];
            d.blend.Some? ==> BlendSet(d.blend.value, Rank(rank, id), defs, sheet, rank) == Ok(sets[|sets| - 1])
  {
    if defs[id].blend.Some? {
      BlendLast(id, defs, sheet, rank);
    } else {
      FixedOnly(id, defs, sheet, rank);
    }
  }

  /** The number of variants is the product of the sizes of the modifier sets. */
  lemma VariantCount(id: string, defs: Definitions, sheet: Sheet, rank: map<string, nat>)
    requires sheet.Valid() && Ranked(defs, rank) && ObjectVariants(id, defs, sheet, rank).Ok?
    ensures id in defs && ModifierSets(id, defs, sheet, rank).Ok?
    ensures |ObjectVariants(id, defs, sheet, rank).value| == Size(ModifierSets(id, defs, sheet, rank).value)
  {
    ProductLength(ModifierSets(id, defs, sheet, rank).value);
  }

  /** `v` is what combination `t` makes of the object at `p`: named after the id and the suffixes of
      `t`, its sprite the cell the sequence index right of `p`, mirrored when the last `Face` says so,
      then blended with the last `BlendWith`'s sprite. */
  predicate BuiltFrom(id: string, p: Position, sheet: Sheet, t: seq<Modifier>, v: Variant)
    requires sheet.Valid()
  {
    && v.name == Join([id] + Suffixes(t), "_")
    && 0 <= p.y < |sheet.cells| && 0 <= p.x + Shifted(t) < |sheet.cells[p.y]|
    && (LastBlend(t).Some? ==> Sized(LastBlend(t).value, sheet.width, sheet.height))
    && v.sprite == BlendBitmap(FlipBitmap(sheet.cells[p.y][p.x + Shifted(t)], LastFace(t) == Some(true)), LastBlend(t))
  }

  /** The variant of one combination is the one `BuiltFrom` describes. */
  lemma MakeVariantShape(id: string, pos: Position, sheet: Sheet, ms: seq<Modifier>)
    requires sheet.Valid() && SizedModifiers(ms, sheet.width, sheet.height)
    requires MakeVariant(id, pos, sheet, ms).Ok?
    ensures BuiltFrom(id, pos, sheet, ms, MakeVariant(id, pos, sheet, ms).value)
  {
    var o := Applied(Seed(pos), ms);
    AppliedSized(Seed(pos), ms, sheet.width, sheet.height);
    MadeFrom(id, pos, sheet, ms, o);
    BuiltFromOptions(id, pos, sheet, ms, o, MakeVariant(id, pos, sheet, ms).value);
  }

  /** The variant made from the options the modifiers leave is the one `BuiltFrom` describes. */
  lemma BuiltFromOptions(id: string, pos: Position, sheet: Sheet, ms: seq<Modifier>, o: Options, v: Variant)
    requires sheet.Valid() && SizedModifiers(ms, sheet.width, sheet.height) && o == Applied(Seed(pos), ms)
    requires o.blendSprite.Some? ==> Sized(o.blendSprite.value, sheet.width, sheet.height)
    requires Lookup(sheet, o.x, o.y).Ok?
    requires v == Variant(Join([id] + o.suffixes, "_"),
                          BlendBitmap(FlipBitmap(Lookup(sheet, o.x, o.y).value, o.horizontal), o.blendSprite))
    ensures BuiltFrom(id, pos, sheet, ms, v)
  {
    OptionsFacts(pos, ms, o);
    LastBlendSized(ms, sheet.width, sheet.height);
    assert Lookup(sheet, o.x, o.y).value == sheet.cells[pos.y][pos.x + Shifted(ms)];
  }

  /** The record the modifiers leave, field by field, in terms of the reference functions. */
  lemma OptionsFacts(pos: Position, ms: seq<Modifier>, o: Options)
    requires o == Applied(Seed(pos), ms)
    ensures o.x == pos.x + Shifted(ms) && o.y == pos.y && o.suffixes == Suffixes(ms)
    ensures o.horizontal == (LastFace(ms) == Some(true)) && o.blendSprite == LastBlend(ms)
  {
    AppliedEffect(Seed(pos), ms);
    AppliedFlags(Seed(pos), ms);
    assert [] + Suffixes(ms) == Suffixes(ms);
  }

  /** Variant `k` of an object is what combination `k` of its modifier sets makes of it. */
  lemma VariantAt(id: string, defs: Definitions, sheet: Sheet, rank: map<string, nat>, k: nat)
    requires sheet.Valid() && Ranked(defs, rank) && ObjectVariants(id, defs, sheet, rank).Ok?
    requires k < |ObjectVariants(id, defs, sheet, rank).value|
    ensures id in defs && ModifierSets(id, defs, sheet, rank).Ok?
    ensures k < |Product(ModifierSets(id, defs, sheet, rank).value)|
    ensures BuiltFrom(id, defs[id].position, sheet, Product(ModifierSets(id, defs, sheet, rank).value)[k],
                      ObjectVariants(id, defs, sheet, rank).value[k])
  {
    var sets := ModifierSets(id, defs, sheet, rank).value;
    var p := defs[id].position;
    Expansion(id, defs, sheet, rank);
    var t := Product(sets)[k];
    var v := ObjectVariants(id, defs, sheet, rank).value[k];
    VariantsOfAt(id, p, sheet, Product(sets), k);
    MakeVariantShape(id, p, sheet, t);
  }

  /** The product of one set lists its elements as one-element tuples. */
  lemma SingleProduct<T>(a: seq<T>, k: nat)
    ensures |Product([a])| == |a|
    ensures k < |a| ==> Product([a])[k] == [a[k]]
  {
    assert Init([a]) == [];
    ExtendLength(Product<T>([]), a);
    if k < |a| {
      ExtendAt(Product<T>([]), a, 0, k);
    }
  }

  /** The product of two sets: pair (f, i) sits at position `f * |b| + i`. */
  lemma PairProduct<T>(a: seq<T>, b: seq<T>, f: nat, i: nat)
    requires f < |a| && i < |b|
    ensures |Product([a, b])| == |a| * |b| && f * |b| + i < |a| * |b|
    ensures Product([a, b])[f * |b| + i] == [a[f], b[i]]
  {
    assert Init([a, b]) == [a];
    SingleProduct(a, f);
    ExtendLength(Product([a]), b);
    ExtendAt(Product([a]), b, f, i);
  }

  /** An object with neither `flip`, `sequence` nor `blend` has the one variant named by its id: its
      cell, unchanged. */
  lemma PlainObject(id: string, defs: Definitions, sheet: Sheet, rank: map<string, nat>)
    requires sheet.Valid() && Ranked(defs, rank) && id in defs
    requires !defs[id].flip && defs[id].sequence == 0 && defs[id].blend.None?
    ensures var found := Lookup(sheet, defs[id].position.x, defs[id].position.y);
            ObjectVariants(id, defs, sheet, rank) == if found.Ok? then Ok([Variant(id, found.value)]) else Err(found.error)
  {
    FixedOnly(id, defs, sheet, rank);
    assert FixedSets(defs[id]) == [];
    Expansion(id, defs, sheet, rank);
    assert Product<Modifier>([]) == [[]];
    SingleCombination(id, defs[id].position, sheet, []);
  }

  /** The variants of a lone combination that leaves the cell as it is. */
  lemma SingleCombination(id: string, p: Position, sheet: Sheet, ms: seq<Modifier>)
    requires sheet.Valid() && (ms == [] || ms == [Keep])
    ensures var found := Lookup(sheet, p.x, p.y);
            VariantsOf(id, p, sheet, [ms]) == if found.Ok? then Ok([Variant(id, found.value)]) else Err(found.error)
  {
    assert Init([ms]) == [] && Last([ms]) == ms;
    assert VariantsOf(id, p, sheet, []) == Ok([]);
    KeepVariant(id, p, sheet, ms);
    var found := Lookup(sheet, p.x, p.y);
    if found.Ok? {
      var v := Variant(id, found.value);
      assert MakeVariant(id, p, sheet, ms) == Ok(v);
      assert [] + [v] == [v];
    }
  }

  /** Running no modifier, or only the no-op: the cell at the declared position, unchanged and named by the id. */
  lemma KeepVariant(id: string, pos: Position, sheet: Sheet, ms: seq<Modifier>)
    requires sheet.Valid() && (ms == [] || ms == [Keep])
    ensures var found := Lookup(sheet, pos.x, pos.y);
            MakeVariant(id, pos, sheet, ms) == if found.Ok? then Ok(Variant(id, found.value)) else Err(found.error)
  {
    assert Join([id] + [], "_") == id;
    if ms == [Keep] {
      assert Init(ms) == [];
    }
    assert Applied(Seed(pos), ms) == Seed(pos);
    MadeFrom(id, pos, sheet, ms, Seed(pos));
    var found := Lookup(sheet, pos.x, pos.y);
    if found.Ok? {
      FlipIdentity(found.value);
      BlendNothing(found.value);
    }
  }

  /** `blend: []` contributes an empty set, so the object has no variants at all, whatever its cell. */
  lemma EmptyBlend(id: string, defs: Definitions, sheet: Sheet, rank: map<string, nat>)
    requires sheet.Valid() && Ranked(defs, rank) && id in defs && defs[id].blend == Some([])
    ensures ObjectVariants(id, defs, sheet, rank) == Ok([])
  {
    var sets := FixedSets(defs[id]) + [[]];
    BlendLast(id, defs, sheet, rank);
    assert ModifierSets(id, defs, sheet, rank) == Ok(sets);
    ProductLength(sets);
    assert sets[|sets| - 1] == [];
    Expansion(id, defs, sheet, rank);
  }

  /** The variant of a flip alternative followed by a sequence alternative. */
  lemma FacedShifted(id: string, pos: Position, sheet: Sheet, h: bool, i: nat)
    requires sheet.Valid()
    ensures var found := Lookup(sheet, pos.x + i, pos.y);
            MakeVariant(id, pos, sheet, [Face(h), Shift(i)])
            == if found.Ok? then Ok(Variant(Join([id, if h then "L" else "R", NatToString(i)], "_"), FlipBitmap(found.value, h)))
               else Err(found.error)
  {
    var t, side := [Face(h), Shift(i)], if h then "L" else "R";
    var o := Options(pos.x + i, pos.y, [side, NatToString(i)], h, None);
    assert Applied(Seed(pos), [Face(h)]) == Options(pos.x, pos.y, [side], h, None) by {
      assert Init([Face(h)]) == [];
    }
    assert Applied(Seed(pos), t) == o by {
      assert Init(t) == [Face(h)] && Last(t) == Shift(i);
    }
    assert [id] + o.suffixes == [id, side, NatToString(i)];
    MadeFrom(id, pos, sheet, t, o);
    var found := Lookup(sheet, pos.x + i, pos.y);
    if found.Ok? {
      BlendNothing(FlipBitmap(found.value, h));
    }
  }

  /** MakeVariant once the options the modifiers leave are known. */
  lemma MadeFrom(id: string, pos: Position, sheet: Sheet, ms: seq<Modifier>, o: Options)
    requires sheet.Valid() && SizedModifiers(ms, sheet.width, sheet.height) && o == Applied(Seed(pos), ms)
    requires o.blendSprite.Some? ==> Sized(o.blendSprite.value, sheet.width, sheet.height)
    ensures var found := Lookup(sheet, o.x, o.y);
            MakeVariant(id, pos, sheet, ms)
            == if found.Ok? then Ok(Variant(Join([id] + o.suffixes, "_"), BlendBitmap(FlipBitmap(found.value, o.horizontal), o.blendSprite)))
               else Err(found.error)
  {
  }

  /** With `flip` and `sequence: n` and no `blend`, the modifier sets are the flip set and then the
      sequence set, and the variants are those of their product: by PairProduct the right-facing
      combinations come first, and by CombinationAt variant `f * n + i` is named `id_R_i` (f = 0) or
      `id_L_i` (f = 1) and is cell (x + i, y), mirrored when f = 1. */
  lemma FlipSequence(id: string, defs: Definitions, sheet: Sheet, rank: map<string, nat>)
    requires sheet.Valid() && Ranked(defs, rank) && id in defs
    requires defs[id].flip && defs[id].sequence > 0 && defs[id].blend.None?
    ensures ModifierSets(id, defs, sheet, rank) == Ok([FlipSet, SequenceSet(defs[id].sequence)])
    ensures forall k :: 0 <= k < |Product([FlipSet, SequenceSet(defs[id].sequence)])| ==>
              SizedModifiers(Product([FlipSet, SequenceSet(defs[id].sequence)])[k], sheet.width, sheet.height)
    ensures ObjectVariants(id, defs, sheet, rank)
            == VariantsOf(id, defs[id].position, sheet, Product([FlipSet, SequenceSet(defs[id].sequence)]))
  {
    FixedOnly(id, defs, sheet, rank);
    assert FixedSets(defs[id]) == [FlipSet, SequenceSet(defs[id].sequence)];
    Expansion(id, defs, sheet, rank);
  }

  /** The variant of a combination that faces one way and then moves `i` cells right. */
  lemma CombinationAt(id: string, p: Position, sheet: Sheet, combos: seq<seq<Modifier>>, k: nat, h: bool, i: nat)
    requires sheet.Valid()
    requires forall j :: 0 <= j < |combos| ==> SizedModifiers(combos[j], sheet.width, sheet.height)
    requires VariantsOf(id, p, sheet, combos).Ok? && k < |combos| && combos[k] == [Face(h), Shift(i)]
    ensures 0 <= p.y < |sheet.cells| && 0 <= p.x + i < |sheet.cells[p.y]|
    ensures VariantsOf(id, p, sheet, combos).value[k]
            == Variant(Join([id, if h then "L" else "R", NatToString(i)], "_"), FlipBitmap(sheet.cells[p.y][p.x + i], h))
  {
    VariantsOfAt(id, p, sheet, combos, k);
    FacedShifted(id, p, sheet, h, i);
  }

  /** Every alternative of a blend set is the no-op or a blend. */
  lemma {:induction false} BlendSetKinds(entries: seq<Option<string>>, bound: nat, defs: Definitions, sheet: Sheet, rank: map<string, nat>)
    requires sheet.Valid() && Ranked(defs, rank) && Below(entries, rank, bound)
    requires BlendSet(entries, bound, defs, sheet, rank).Ok?
    ensures forall k :: 0 <= k < |BlendSet(entries, bound, defs, sheet, rank).value| ==>
              BlendSet(entries, bound, defs, sheet, rank).value[k] == Keep || BlendSet(entries, bound, defs, sheet, rank).value[k].BlendWith?
    decreases |entries|
  {
    if entries != [] {
      BlendSetKinds(Init(entries), bound, defs, sheet, rank);
    }
  }

  /** How many alternatives one blend entry contributes: one for `null`, one per variant of the
      object it names (none when that object fails). */
  function EntryCount(e: Option<string>, defs: Definitions, sheet: Sheet, rank: map<string, nat>): nat
    requires sheet.Valid() && Ranked(defs, rank)
  {
    match e
    case None => 1
    case Some(b) =>
      var vs := ObjectVariants(b, defs, sheet, rank);
      if vs.Ok? then |vs.value| else 0
  }

  /** The alternatives of all entries, counted from the front. */
  function BlendCount(entries: seq<Option<string>>, defs: Definitions, sheet: Sheet, rank: map<string, nat>): nat
    requires sheet.Valid() && Ranked(defs, rank)
    decreases |entries|
  {
    if entries == [] then 0 else EntryCount(entries[0], defs, sheet, rank) + BlendCount(entries[1..], defs, sheet, rank)
  }

  lemma {:induction false} BlendCountSnoc(entries: seq<Option<string>>, e: Option<string>, defs: Definitions, sheet: Sheet,
                                          rank: map<string, nat>)
    requires sheet.Valid() && Ranked(defs, rank)
    ensures BlendCount(entries + [e], defs, sheet, rank) == BlendCount(entries, defs, sheet, rank) + EntryCount(e, defs, sheet, rank)
    decreases |entries|
  {
    if entries != [] {
      assert (entries + [e])[1..] == entries[1..] + [e];
      BlendCountSnoc(entries[1..], e, defs, sheet, rank);
    } else {
      assert [e][1..] == [];
    }
  }

  /** The blend set has one alternative per `null` entry and one per variant of each object named. */
  lemma {:induction false} BlendSetCount(entries: seq<Option<string>>, bound: nat, defs: Definitions, sheet: Sheet,
                                         rank: map<string, nat>)
    requires sheet.Valid() && Ranked(defs, rank) && Below(entries, rank, bound)
    requires BlendSet(entries, bound, defs, sheet, rank).Ok?
    ensures |BlendSet(entries, bound, defs, sheet, rank).value| == BlendCount(entries, defs, sheet, rank)
    decreases |entries|
  {
    if entries != [] {
      BlendSetCount(Init(entries), bound, defs, sheet, rank);
      BlendCountSnoc(Init(entries), Last(entries), defs, sheet, rank);
      assert Init(entries) + [Last(entries)] == entries;
    }
  }

  /** The alternatives of the first `j` entries start the blend set. */
  lemma {:induction false} BlendSetPrefix(entries: seq<Option<string>>, bound: nat, defs: Definitions, sheet: Sheet,
                                          rank: map<string, nat>, j: nat)
    requires sheet.Valid() && Ranked(defs, rank) && Below(entries, rank, bound)
    requires j <= |entries| && BlendSet(entries, bound, defs, sheet, rank).Ok?
    ensures Below(entries[..j], rank, bound)
    ensures BlendSet(entries[..j], bound, defs, sheet, rank).Ok?
    ensures BlendSet(entries[..j], bound, defs, sheet, rank).value <= BlendSet(entries, bound, defs, sheet, rank).value
    decreases |entries|
  {
    if j < |entries| {
      assert Init(entries)[..j] == entries[..j];
      BlendSetPrefix(Init(entries), bound, defs, sheet, rank, j);
    } else {
      assert entries[..j] == entries;
    }
  }

  /** A `null` entry `j` contributes the no-op right after the alternatives of the entries before it. */
  lemma BlendNullAt(entries: seq<Option<string>>, bound: nat, defs: Definitions, sheet: Sheet,
                    rank: map<string, nat>, j: nat)
    requires sheet.Valid() && Ranked(defs, rank) && Below(entries, rank, bound)
    requires j < |entries| && entries[j].None? && BlendSet(entries, bound, defs, sheet, rank).Ok?
    ensures BlendCount(entries[..j], defs, sheet, rank) < |BlendSet(entries, bound, defs, sheet, rank).value|
    ensures BlendSet(entries, bound, defs, sheet, rank).value[BlendCount(entries[..j], defs, sheet, rank)] == Keep
  {
    BlendSetPrefix(entries, bound, defs, sheet, rank, j + 1);
    var before := entries[..j + 1];
    assert Init(before) == entries[..j] && Last(before) == entries[j];
    BlendSetCount(entries[..j], bound, defs, sheet, rank);
  }

  /** An entry `j` naming object `b` contributes, right after the alternatives of the entries before
      it, one blend per variant of `b`, in `b`'s order. */
  lemma BlendObjectAt(entries: seq<Option<string>>, bound: nat, defs: Definitions, sheet: Sheet,
                      rank: map<string, nat>, j: nat)
    requires sheet.Valid() && Ranked(defs, rank) && Below(entries, rank, bound)
    requires j < |entries| && entries[j].Some? && BlendSet(entries, bound, defs, sheet, rank).Ok?
    ensures ObjectVariants(entries[j].value, defs, sheet, rank).Ok?
    ensures BlendsAt(BlendSet(entries, bound, defs, sheet, rank).value, BlendCount(entries[..j], defs, sheet, rank),
                     ObjectVariants(entries[j].value, defs, sheet, rank).value)
  {
    BlendEntryPrefix(entries, bound, defs, sheet, rank, j);
    var r, acc := BlendSet(entries, bound, defs, sheet, rank).value, BlendSet(entries[..j], bound, defs, sheet, rank).value;
    AlternativesAt(r, acc, ObjectVariants(entries[j].value, defs, sheet, rank).value, |acc|);
  }

  /** The blend set starts with the alternatives of the entries before `j`, then those of entry `j`. */
  lemma BlendEntryPrefix(entries: seq<Option<string>>, bound: nat, defs: Definitions, sheet: Sheet,
                         rank: map<string, nat>, j: nat)
    requires sheet.Valid() && Ranked(defs, rank) && Below(entries, rank, bound)
    requires j < |entries| && entries[j].Some? && BlendSet(entries, bound, defs, sheet, rank).Ok?
    ensures Below(entries[..j], rank, bound)
    ensures BlendSet(entries[..j], bound, defs, sheet, rank).Ok? && ObjectVariants(entries[j].value, defs, sheet, rank).Ok?
    ensures |BlendSet(entries[..j], bound, defs, sheet, rank).value| == BlendCount(entries[..j], defs, sheet, rank)
    ensures BlendSet(entries[..j], bound, defs, sheet, rank).value
            + BlendAlternatives(ObjectVariants(entries[j].value, defs, sheet, rank).value)
            <= BlendSet(entries, bound, defs, sheet, rank).value
  {
    BlendSetPrefix(entries, bound, defs, sheet, rank, j + 1);
    var before := entries[..j + 1];
    assert Init(before) == entries[..j] && Last(before) == entries[j];
    BlendSetLast(before, bound, defs, sheet, rank);
    BlendSetCount(entries[..j], bound, defs, sheet, rank);
  }

  /** A blend set whose last entry names an object ends with one blend per variant of that object. */
  lemma BlendSetLast(entries: seq<Option<string>>, bound: nat, defs: Definitions, sheet: Sheet, rank: map<string, nat>)
    requires sheet.Valid() && Ranked(defs, rank) && Below(entries, rank, bound)
    requires entries != [] && Last(entries).Some? && BlendSet(entries, bound, defs, sheet, rank).Ok?
    ensures Below(Init(entries), rank, bound)
    ensures BlendSet(Init(entries), bound, defs, sheet, rank).Ok? && ObjectVariants(Last(entries).value, defs, sheet, rank).Ok?
    ensures BlendSet(entries, bound, defs, sheet, rank).value
            == BlendSet(Init(entries), bound, defs, sheet, rank).value
               + BlendAlternatives(ObjectVariants(Last(entries).value, defs, sheet, rank).value)
  {
  }

  /** The alternatives appended after `acc` sit right after it in any extension `r`. */
  /** From position `n` on, `r` holds one blend per variant of `vs`, in order. */
  predicate BlendsAt(r: seq<Modifier>, n: nat, vs: seq<Variant>) {
    forall t :: 0 <= t < |vs| ==> n + t < |r| && r[n + t] == BlendWith(vs[t])
  }

  lemma AlternativesAt(r: seq<Modifier>, acc: seq<Modifier>, vs: seq<Variant>, n: nat)
    requires acc + BlendAlternatives(vs) <= r && |acc| == n
    ensures BlendsAt(r, n, vs)
  {
    forall t | 0 <= t < |vs| ensures n + t < |r| && r[n + t] == BlendWith(vs[t]) {
      assert (acc + BlendAlternatives(vs))[n + t] == BlendAlternatives(vs)[t];
    }
  }

  /** The variant of a blend alternative alone. */
  lemma BlendedVariant(id: string, pos: Position, sheet: Sheet, v: Variant)
    requires sheet.Valid() && Sized(v.sprite, sheet.width, sheet.height)
    ensures var found := Lookup(sheet, pos.x, pos.y);
            MakeVariant(id, pos, sheet, [BlendWith(v)])
            == if found.Ok? then Ok(Variant(id + "_" + v.name, BlendBitmap(found.value, Some(v.sprite)))) else Err(found.error)
  {
    assert Init([BlendWith(v)]) == [];
    assert Join([id] + [v.name], "_") == id + "_" + v.name by {
      assert ([id] + [v.name])[1..] == [v.name];
    }
    var o := Options(pos.x, pos.y, [v.name], false, Some(v.sprite));
    assert Applied(Seed(pos), [BlendWith(v)]) == o;
    MadeFrom(id, pos, sheet, [BlendWith(v)], o);
    var found := Lookup(sheet, pos.x, pos.y);
    if found.Ok? {
      FlipIdentity(found.value);
    }
  }

  /** With only `blend`, variant `k` comes from blend alternative `k`: the unchanged cell named `id` for
      a `null` entry, otherwise the cell blended with that variant's sprite and named `id_` followed
      by that variant's name. */
  lemma BlendOnly(id: string, defs: Definitions, sheet: Sheet, rank: map<string, nat>, k: nat)
    requires sheet.Valid() && Ranked(defs, rank) && id in defs
    requires !defs[id].flip && defs[id].sequence == 0 && defs[id].blend.Some?
    requires ObjectVariants(id, defs, sheet, rank).Ok? && k < |ObjectVariants(id, defs, sheet, rank).value|
    ensures ModifierSets(id, defs, sheet, rank).Ok? && |ModifierSets(id, defs, sheet, rank).value| == 1
    ensures var alternatives := ModifierSets(id, defs, sheet, rank).value[0];
            var p := defs[id].position;
            && |ObjectVariants(id, defs, sheet, rank).value| == |alternatives| && k < |alternatives|
            && 0 <= p.y < |sheet.cells| && 0 <= p.x < |sheet.cells[p.y]|
            && (alternatives[k] == Keep ==>
                  ObjectVariants(id, defs, sheet, rank).value[k] == Variant(id, sheet.cells[p.y][p.x]))
            && (alternatives[k].BlendWith? ==>
                  Sized(alternatives[k].variant.sprite, sheet.width, sheet.height) &&
                  ObjectVariants(id, defs, sheet, rank).value[k]
                  == Variant(id + "_" + alternatives[k].variant.name,
                             BlendBitmap(sheet.cells[p.y][p.x], Some(alternatives[k].variant.sprite))))
  {
    var p := defs[id].position;
    BlendLast(id, defs, sheet, rank);
    var alternatives := BlendSet(defs[id].blend.value, Rank(rank, id), defs, sheet, rank).value;
    assert FixedSets(defs[id]) == [];
    var sets := [alternatives];
    assert ModifierSets(id, defs, sheet, rank) == Ok(sets);
    Expansion(id, defs, sheet, rank);
    SingleProduct(alternatives, k);
    VariantsOfAt(id, p, sheet, Product(sets), k);
    BlendSetKinds(defs[id].blend.value, Rank(rank, id), defs, sheet, rank);
    if alternatives[k] == Keep {
      KeepVariant(id, p, sheet, [Keep]);
    } else {
      BlendedVariant(id, p, sheet, alternatives[k].variant);
    }
  }

  /** `objectDefinitions[objectId].omit || object.isBlank()` (index.js:19). */
  predicate Skipped(d: ObjectDefinition, o: PuzzleScriptObject) {
    d.omit || IsBlank(o)
  }

  /** A variant is skipped exactly when its object is marked `omit` or no pixel of its sprite is
      fully opaque. */
  lemma SkipIff(d: ObjectDefinition, v: Variant)
    requires v.sprite.Valid() && Encode(v.name, v.sprite).Ok?
    ensures Skipped(d, Encode(v.name, v.sprite).value) <==> d.omit || NoColour(Colours(v.sprite))
  {
    BlankIff(v.name, v.sprite);
  }

  // ---------------------------------------------------------------------------------------------
  // The imperative expansion

  lemma {:induction false} VariantsOfFails(id: string, pos: Position, sheet: Sheet, combos: seq<seq<Modifier>>, k: nat, j: nat)
    requires sheet.Valid()
    requires forall i :: 0 <= i < |combos| ==> SizedModifiers(combos[i], sheet.width, sheet.height)
    requires k <= j <= |combos| && VariantsOf(id, pos, sheet, combos[..k]).Err?
    ensures VariantsOf(id, pos, sheet, combos[..j]) == VariantsOf(id, pos, sheet, combos[..k])
    decreases j
  {
    if j > k {
      VariantsOfFails(id, pos, sheet, combos, k, j - 1);
      assert Init(combos[..j]) == combos[..j - 1];
    }
  }

  lemma {:induction false} BlendSetFails(entries: seq<Option<string>>, bound: nat, defs: Definitions, sheet: Sheet,
                                         rank: map<string, nat>, k: nat, j: nat)
    requires sheet.Valid() && Ranked(defs, rank) && Below(entries, rank, bound)
    requires k <= j <= |entries| && BlendSet(entries[..k], bound, defs, sheet, rank).Err?
    ensures BlendSet(entries[..j], bound, defs, sheet, rank) == BlendSet(entries[..k], bound, defs, sheet, rank)
    decreases j
  {
    if j > k {
      BlendSetFails(entries, bound, defs, sheet, rank, k, j - 1);
      assert Init(entries[..j]) == entries[..j - 1];
    }
  }

  /** `getObjectVariants` as the JavaScript code runs it. */
  method GetObjectVariants(id: string, defs: Definitions, sheet: Sheet, ghost rank: map<string, nat>)
    returns (r: Result<seq<Variant>>)
    requires sheet.Valid() && Ranked(defs, rank)
    ensures r == ObjectVariants(id, defs, sheet, rank)
    decreases Rank(rank, id), 2, 0
  {
    if id !in defs {
      return Err(UnknownObject(id));
    }
    var objectDefinition := defs[id];
    var sets := GetVariantModifierSets(id, defs, sheet, rank);
    if sets.Err? {
      return Err(sets.error);
    }
    var combinations := CartesianProduct(sets.value);
    ProductSized(sets.value, sheet.width, sheet.height);
    r := MapVariants(id, objectDefinition.position, sheet, combinations);
  }

  /** The `map` of `getObjectVariants` over the combinations, in order. */
  method MapVariants(id: string, pos: Position, sheet: Sheet, combinations: seq<seq<Modifier>>)
    returns (r: Result<seq<Variant>>)
    requires sheet.Valid()
    requires forall k :: 0 <= k < |combinations| ==> SizedModifiers(combinations[k], sheet.width, sheet.height)
    ensures r == VariantsOf(id, pos, sheet, combinations)
  {
    var variants: seq<Variant> := [];
    assert combinations[..0] == [];
    for k := 0 to |combinations|
      invariant VariantsOf(id, pos, sheet, combinations[..k]) == Ok(variants)
    {
      assert Init(combinations[..k + 1]) == combinations[..k] && Last(combinations[..k + 1]) == combinations[k];
      var variant := BuildVariant(id, pos, sheet, combinations[k]);
      if variant.Err? {
        VariantsOfFails(id, pos, sheet, combinations, k + 1, |combinations|);
        assert combinations[..|combinations|] == combinations;
        return Err(variant.error);
      }
      variants := variants + [variant.value];
    }
    assert combinations[..|combinations|] == combinations;
    r := Ok(variants);
  }

  /** One pass of that `map`: a fresh options record, every modifier applied to it, then the cell it
      names, flipped and blended. */
  method BuildVariant(id: string, pos: Position, sheet: Sheet, modifiers: seq<Modifier>) returns (r: Result<Variant>)
    requires sheet.Valid() && SizedModifiers(modifiers, sheet.width, sheet.height)
    ensures r == MakeVariant(id, pos, sheet, modifiers)
  {
    var options := new VariantOptions(pos);
    assert modifiers[..0] == [];
    for i := 0 to |modifiers|
      invariant options.Value() == Applied(Seed(pos), modifiers[..i])
    {
      assert Init(modifiers[..i + 1]) == modifiers[..i];
      options.Apply(modifiers[i]);
    }
    assert modifiers[..|modifiers|] == modifiers;
    AppliedSized(Seed(pos), modifiers, sheet.width, sheet.height);
    var cell := Lookup(sheet, options.sourceX, options.sourceY);
    if cell.Err? {
      return Err(cell.error);
    }
    var sprite := BlendBitmap(FlipBitmap(cell.value, options.horizontal), options.blendSprite);
    r := Ok(Variant(Join([id] + options.suffixes, "_"), sprite));
  }

  /** `getVariantModifierSets` as the JavaScript code runs it: the sets pushed in turn. */
  method GetVariantModifierSets(id: string, defs: Definitions, sheet: Sheet, ghost rank: map<string, nat>)
    returns (r: Result<seq<seq<Modifier>>>)
    requires sheet.Valid() && Ranked(defs, rank) && id in defs
    ensures r == ModifierSets(id, defs, sheet, rank)
    decreases Rank(rank, id), 1, 0
  {
    var objectDefinition := defs[id];
    var variantModifierSets: seq<seq<Modifier>> := [];
    if objectDefinition.flip {
      variantModifierSets := variantModifierSets + [[Face(false), Face(true)]];
    }
    if objectDefinition.sequence > 0 {
      variantModifierSets := variantModifierSets + [SequenceSet(objectDefinition.sequence)];
    }
    assert variantModifierSets == FixedSets(objectDefinition);
    if objectDefinition.blend.Some? {
      RanksBelow(defs, rank, id);
      var variantModifiers := ReduceBlend(objectDefinition.blend.value, Rank(rank, id), defs, sheet, rank);
      if variantModifiers.Err? {
        return Err(variantModifiers.error);
      }
      variantModifierSets := variantModifierSets + [variantModifiers.value];
    }
    r := Ok(variantModifierSets);
  }

  /** The `reduce` over the blend entries as the JavaScript code runs it. */
  method ReduceBlend(entries: seq<Option<string>>, ghost bound: nat, defs: Definitions, sheet: Sheet,
                     ghost rank: map<string, nat>) returns (r: Result<seq<Modifier>>)
    requires sheet.Valid() && Ranked(defs, rank) && Below(entries, rank, bound)
    ensures r == BlendSet(entries, bound, defs, sheet, rank)
    decreases bound, 0, 0
  {
    var variantModifiers: seq<Modifier> := [];
    assert entries[..0] == [];
    for i := 0 to |entries|
      invariant BlendSet(entries[..i], bound, defs, sheet, rank) == Ok(variantModifiers)
    {
      assert Init(entries[..i + 1]) == entries[..i];
      assert Last(entries[..i + 1]) == entries[i];
      if entries[i].None? {
        variantModifiers := variantModifiers + [Keep];
      } else {
        var blendVariants := GetObjectVariants(entries[i].value, defs, sheet, rank);
        if blendVariants.Err? {
          BlendSetFails(entries, bound, defs, sheet, rank, i + 1, |entries|);
          assert entries[..|entries|] == entries;
          return Err(blendVariants.error);
        }
        variantModifiers := PushBlends(variantModifiers, blendVariants.value);
      }
    }
    assert entries[..|entries|] == entries;
    r := Ok(variantModifiers);
  }

  /** One alternative per blend variant, pushed in order. */
  method PushBlends(variantModifiers: seq<Modifier>, blendVariants: seq<Variant>) returns (r: seq<Modifier>)
    ensures r == variantModifiers + BlendAlternatives(blendVariants)
  {
    r := variantModifiers;
    for v := 0 to |blendVariants|
      invariant r == variantModifiers + BlendAlternatives(blendVariants[..v])
    {
      assert BlendAlternatives(blendVariants[..v + 1]) == BlendAlternatives(blendVariants[..v]) + [BlendWith(blendVariants[v])];
      r := r + [BlendWith(blendVariants[v])];
    }
    assert blendVariants[..|blendVariants|] == blendVariants;
  }
}
