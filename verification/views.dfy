/**
 The data model of the component: views, their css records, their laid-out
 boxes, the palette that holds them, and the rule by which a list of css
 records merges into one (later records override earlier ones key by key).
 */
module Views {
  import opened Base
  import opened Units

  /** A css property value. Text values (`Str`) are read by the resolver;
      sizes the component builds with a template such as `${n}px` are kept as
      a number with a unit (`Dim`); `Flag` is a boolean such as `scalable`;
      `Undef` is a property explicitly set to undefined. */
  datatype CssValue = Str(s: string) | Dim(value: real, unit: Unit) | Flag(b: bool) | Undef

  type Css = map<string, CssValue>

  /** A view's css: one record, or a list of records applied left to right. */
  datatype StyleSpec = Single(css: Css) | Layers(layers: seq<Css>)

  /** `NoType` is a view whose `type` is not set. */
  datatype ViewType = RectType | TextType | ImageType | QrCodeType | NoType

  /** The laid-out box the painter writes back into a view. A `minWidth` of 0
      stands for "not set", which the component treats alike. */
  datatype Rect = Rect(left: real, top: real, right: real, bottom: real, x: real, y: real, minWidth: real)

  /** A view. An empty `id` (or text, content, url) is an unset one; a view
      without an id is drawn but cannot be selected. `rect` is `None` until
      the view has been laid out. */
  datatype View = View(kind: ViewType, id: string, css: StyleSpec, rect: Option<Rect>,
                       text: string, content: string, url: string)

  /** A render target: its size texts, background, and views in z-order
      (later is on top). The selection overlay is a palette too. */
  datatype Palette = Palette(width: string, height: string, background: Option<string>, views: seq<View>)

  predicate LaidOut(views: seq<View>) {
    forall i :: 0 <= i < |views| ==> views[i].rect.Some?
  }

  /** JavaScript truthiness of a css value. */
  predicate Truthy(v: CssValue) {
    match v
    case Str(s) => |s| > 0
    case Dim(_, _) => true
    case Flag(b) => b
    case Undef => false
  }

  /** Reads a named property of a view's css: a missing key is undefined,
      and a list of records has no named properties. */
  function Property(st: StyleSpec, key: string): CssValue {
    match st
    case Single(c) => if key in c then c[key] else Undef
    case Layers(_) => Undef
  }

  /** Converts a css value to pixels the way the single-literal conversion
      converts its text. A number built as `${n}<unit>` converts to n in
      that unit; a boolean or undefined is read as the text "true", "false"
      or "undefined", none of which is a size. */
  function ResolveCss(ctx: ScaleContext, v: CssValue, baseSize: real): (r: Resolution)
    ensures v.Str? ==> r == ParsePx(ctx, v.s, baseSize)
    ensures v.Dim? ==> !r.errorLogged && r.px == Resolve(ctx, v.value, v.unit, baseSize)
    ensures !v.Str? && !v.Dim? ==> r == Resolution(0, true)
  {
    match v
    case Str(s) => ParsePx(ctx, s, baseSize)
    case Dim(value, unit) => Resolution(Resolve(ctx, value, unit, baseSize), false)
    case Flag(_) => Resolution(0, true)
    case Undef => Resolution(0, true)
  }

  /** A number with a unit converts exactly as the text of the same size
      does: `${n}<unit>` written out and read back gives the same pixels,
      with no error. */
  lemma DimConvertsAsItsText(ctx: ScaleContext, l: Literal, baseSize: real)
    requires WellFormed(l)
    ensures ResolveCss(ctx, Dim(Value(l), l.unit), baseSize) == ResolveCss(ctx, Str(Text(l)), baseSize)
  {
    ParsePxOfText(ctx, l, baseSize);
  }

  /** A single record is treated as a one-record list. */
  function LayersOf(st: StyleSpec): seq<Css> {
    match st
    case Single(c) => [c]
    case Layers(ls) => ls
  }

  /** `Object.assign({}, ...ls)`: the records copied one after the other
      into an empty record. */
  function Flatten(ls: seq<Css>): Css {
    if |ls| == 0 then map[] else Flatten(ls[..|ls| - 1]) + ls[|ls| - 1]
  }

  /** A key is in the flattened record iff some record has it. */
  lemma {:induction false} FlattenHasKey(ls: seq<Css>, k: string)
    ensures k in Flatten(ls) <==> exists i :: 0 <= i < |ls| && k in ls[i]
    decreases |ls|
  {
    if |ls| > 0 {
      var n := |ls| - 1;
      var front := ls[..n];
      FlattenHasKey(front, k);
      assert Flatten(ls) == Flatten(front) + ls[n];
      if k in Flatten(front) {
        var i :| 0 <= i < n && k in front[i];
        assert k in ls[i];
      }
      if exists i :: 0 <= i < |ls| && k in ls[i] {
        var i :| 0 <= i < |ls| && k in ls[i];
        if i < n {
          assert k in front[i];
        }
      }
    }
  }

  /** A key of the flattened record has the value of the last record that
      has it. */
  lemma {:induction false} FlattenLastWins(ls: seq<Css>, k: string, i: nat)
    requires i < |ls| && k in ls[i]
    requires forall j :: i < j < |ls| ==> k !in ls[j]
    ensures k in Flatten(ls) && Flatten(ls)[k] == ls[i][k]
    decreases |ls|
  {
    var n := |ls| - 1;
    var front := ls[..n];
    assert Flatten(ls) == Flatten(front) + ls[n];
    if i < n {
      assert k !in ls[n];
      assert front[i] == ls[i];
      assert forall j :: i < j < n ==> front[j] == ls[j];
      FlattenLastWins(front, k, i);
    }
  }

  /** Flattening a concatenation is flattening each part, the second part
      winning. */
  lemma {:induction false} FlattenAppend(a: seq<Css>, b: seq<Css>)
    ensures Flatten(a + b) == Flatten(a) + Flatten(b)
    decreases |b|
  {
    if |b| == 0 {
      assert a + b == a;
    } else {
      var b' := b[..|b| - 1];
      assert (a + b)[..|a + b| - 1] == a + b';
      assert (a + b)[|a + b| - 1] == b[|b| - 1];
      FlattenAppend(a, b');
      UnionAssociates(Flatten(a), Flatten(b'), b[|b| - 1]);
    }
  }

  lemma UnionAssociates(x: Css, y: Css, z: Css)
    ensures (x + y) + z == x + (y + z)
  {
  }

  /** A one-record list flattens to that record. */
  lemma FlattenSingle(c: Css)
    ensures Flatten([c]) == c
  {
    assert [c][..0] == [];
  }

  /** The non-overwriting style merge: the current records and then the patch records
      flattened into one record. Every key set by the patch takes the patched
      value; every other key keeps its current value. */
  function Merge(current: StyleSpec, patch: StyleSpec): (r: StyleSpec)
    ensures r.Single?
    ensures r.css.Keys == Flatten(LayersOf(current)).Keys + Flatten(LayersOf(patch)).Keys
    ensures forall k :: k in Flatten(LayersOf(patch)) ==> r.css[k] == Flatten(LayersOf(patch))[k]
    ensures forall k :: k in Flatten(LayersOf(current)) && k !in Flatten(LayersOf(patch)) ==>
              r.css[k] == Flatten(LayersOf(current))[k]
  {
    FlattenAppend(LayersOf(current), LayersOf(patch));
    Single(Flatten(LayersOf(current) + LayersOf(patch)))
  }

  /** Merging the same patch a second time changes nothing. */
  lemma MergeIsIdempotent(current: StyleSpec, patch: StyleSpec)
    ensures Merge(Merge(current, patch), patch) == Merge(current, patch)
  {
    var once := Merge(current, patch);
    FlattenSingle(once.css);
    var twice := Merge(once, patch);
    assert twice.css.Keys == once.css.Keys;
  }

  /** Merging `[{color: red}, {color: blue, width: 10px}]` gives
      `{color: blue, width: 10px}`. */
  lemma MergeLaterOverrides()
    ensures Flatten([map["color" := Str("red")], map["color" := Str("blue"), "width" := Str("10px")]])
         == map["color" := Str("blue"), "width" := Str("10px")]
  {
    var a := map["color" := Str("red")];
    var b := map["color" := Str("blue"), "width" := Str("10px")];
    assert [a, b][..1] == [a];
    assert [a][..0] == [];
  }

  /** The first view with a given id. */
  function FirstWithId(views: seq<View>, id: string): (r: Option<nat>)
    ensures r.Some? ==> r.value < |views| && views[r.value].id == id
    ensures r.Some? ==> forall j :: 0 <= j < r.value ==> views[j].id != id
    ensures r.None? ==> forall j :: 0 <= j < |views| ==> views[j].id != id
  {
    if |views| == 0 then None
    else if views[0].id == id then Some(0)
    else
      match FirstWithId(views[1..], id)
      case None => None
      case Some(i) => Some(i + 1)
  }
}
