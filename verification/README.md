# canvas-share in Dafny

A model of the core of canvas-share. canvas-share is a Taro/React component for WeChat mini-programs. It paints a poster from a JSON "palette" of views and lets the user select and edit those views by touch.

The model covers five parts of the component:

- **Size conversion** (`Base`, `Units`). Dimension texts such as `"24rpx"`, `"10px"` or `"50%"` become integer device pixels under a screen-ratio / scale context. This uses JavaScript's `Math.round` and its `x || default` fallbacks. A `calc(...)` size has its `<id>.<attr>` references replaced by cached view boxes and its literals converted before it reaches the expression evaluator.
- **Views and styles** (`Views`). The view record, JavaScript truthiness of css values, and the non-overwriting style merge, which is `Object.assign` over lists of style records.
- **Helpers** (`Utils`). Emptiness, strict point-in-box hit testing, hit testing of the overlay's delete and scale handles, the repaint decision, and the overlay views: the selection box, the scale handle and the delete handle.
- **The editing session** (`Editor`). A state machine over the component's mutable fields.
  - Touch start, move and end.
  - The tap handler: top-down hit scan, delete precedence, and "tap again to select the view underneath".
  - `doAction`: re-targeting by id, css patch or overwrite, box, text and content updates, and image-url download.
  - `reDraw` and the three-canvas layer split `sliceLayers`.
  - Canvas paints and callbacks are an event list.
- **The export check** (`Export`). The read-back of the exported file's size, the 1% aspect-ratio test and the bounded repaint loop.
- **The tree painter** (`Layout`). `CanvasShared._draw`/`draw` walks a tree of div/image/text nodes. It makes positions absolute by writing them back into the styles and emits one canvas command per node.

Pixel sizes and coordinates are `real`. Rounding is modelled where the source rounds (`Math.round` in the size resolver). Template strings such as `` `${n}px` `` are kept as a number with a unit (`CssValue.Dim`).

## Model

| member | source | states |
|---|---|---|
| Base.Round | src/lib/painter.js:16-20 | `Math.round`: the result is within half a unit of its argument, halves going up |
| Base.OrElse | src/lib/painter.js:16-18 | JavaScript's or-default on a number: a non-zero x is kept, zero (falsy) falls back to the default |
| Base.RoundOfInteger | src/lib/painter.js:16-20 | rounding an integral value gives that integer |
| Base.RoundMonotone | src/lib/painter.js:16-20 | rounding never reverses the order of two values |
| Base.RoundShift | src/lib/painter.js:16-20 | rounding commutes with adding an integer |
| Units.SplitUnit | src/lib/painter.js:37 | a recognised unit suffix plus the remaining number text make up the whole input |
| Units.ParseNumber | src/lib/painter.js:37 | a parsed number is sign, non-empty digits and optional fraction digits that print back to exactly the input |
| Units.Parse | src/lib/painter.js:6-11 | any literal read from a text is well formed and prints back to exactly that text; otherwise the size is illegal |
| Units.ParseText | src/lib/painter.js:6-11 | round trip: reading the text of any well-formed literal gives the literal back |
| Units.ParseEmpty | src/lib/painter.js:7-10 | the empty text is an illegal size |
| Units.ParsePx | src/lib/painter.js:5-23 | an error is logged exactly when the text is not a size literal, and then the result is 0 |
| Units.ParsePxOfText | src/lib/painter.js:11-22 | the text of a literal converts to `Math.round` of its value times screenK·scale (rpx), times scale (px), or its share of the base size (%) |
| Units.ThreeRpxAtHalfScreenK | src/lib/painter.js:15-16 | "3rpx" at screenK 0.5, scale 1 is 2 pixels (1.5 rounded up) |
| Units.UnsetContextDefaults | src/lib/painter.js:16-18 | an unset screenK and scale act as 0.5 and 1 |
| Units.PxIgnoresScreenK | src/lib/painter.js:17-18 | px sizes do not depend on screenK |
| Units.IntegerPxAtUnitScale | src/lib/painter.js:17-18 | an integral px size at scale 1 is that many pixels |
| Units.PercentIgnoresContext | src/lib/painter.js:19-20 | % sizes depend on the base size only |
| Units.HundredPercentIsBase | src/lib/painter.js:19-20 | 100% of an integral base is the base |
| Units.RpxIsScaledPx | src/lib/painter.js:15-18 | an rpx size converts as a px size under scale screenK·scale |
| Units.ResolveMonotone | src/lib/painter.js:14-22 | with positive factors a larger size never yields fewer pixels, in every unit |
| Units.SubstituteRefs | src/lib/painter.js:46-49 | succeeds iff every reference names a cached view; replaces each reference by the cached attribute and keeps every other token; a failure names the first uncached id |
| Units.ConvertLiterals | src/lib/painter.js:50 | each literal token becomes the pixel value the single-literal conversion gives its text; other tokens pass through |
| Units.ToPx | src/lib/painter.js:33-55 | "0" is 0 with no error; other non-calc text is the single-literal conversion; a calc body with no uncached reference evaluates, without error, the evaluator on its substituted and converted tokens; with any uncached reference it fails with the id of the first one |
| Units.CalcInput | src/lib/painter.js:43-51 | the evaluator receives, position by position, cached values for references, converted pixels for literals, and the other tokens unchanged |
| Units.ZeroShortcut | src/lib/painter.js:34-36 | "0" gives 0 without the error that reading it as a literal would log |
| Units.CalcWidthPlusTenPx | src/lib/painter.js:43-51 | `calc(a.width + 10px)` with a cached width of 100 hands the evaluator 100, " + ", 10 |
| Units.CalcUnknownView | src/lib/painter.js:46-49 | a calc body fails with the id of its first reference to an uncached view, wherever that reference stands |
| Units.TenPx | src/lib/painter.js:17-18 | "10px" at scale 1 is 10 pixels |
| Views.ResolveCss | src/index.tsx:503 | a css string converts as the single-literal conversion; a number with a unit converts in that unit without error; a boolean or undefined value logs an error and is 0 |
| Views.DimConvertsAsItsText | src/index.tsx:503 | a number with a unit converts exactly as the text of the same size does |
| Views.Merge | src/index.tsx:263-274 | the merged style has the keys of both sides; patched keys take the patch's value, every other key keeps its value |
| Views.MergeIsIdempotent | src/index.tsx:263-274 | merging the same patch twice is merging it once |
| Views.MergeLaterOverrides | src/index.tsx:266-273 | a later record's value wins for a shared key, and the other keys are kept |
| Views.FlattenHasKey | src/index.tsx:266-273 | a key is in `Object.assign({}, ...ls)` iff some record has it |
| Views.FlattenLastWins | src/index.tsx:266-273 | each key takes the value of the last record that has it |
| Views.FlattenAppend | src/index.tsx:266-273 | flattening a concatenation flattens each part, the second winning |
| Views.FlattenSingle | src/index.tsx:273 | one record flattens to itself |
| Views.FirstWithId | src/index.tsx:248-257 | the index of the first view with the id; none iff no view has it |
| Utils.EmptyIffNoKey | src/utils.ts:12-17 | `isEmpty` holds exactly when the object has no key |
| Utils.EdgesAreOutside | src/utils.ts:19-21 | points on an edge are outside; only a box of positive width and height contains a point |
| Utils.InHandle | src/utils.ts:23-43 | false without an overlay or without such a handle; otherwise exactly whether the point is inside the first view with that id |
| Utils.IsNeedRefresh | src/utils.ts:45-50 | a repaint is needed iff the palette is present, non-empty, and not (dirty-checked and equal to the last) |
| Utils.RefreshWithoutDirtyCheck | src/utils.ts:45-50 | without dirty checking every non-empty palette repaints, even an equal one |
| Utils.GetBox | src/utils.ts:52-75 | the box is a single-record rect view with id "box" and no layout yet |
| Utils.BoxShape | src/utils.ts:52-75 | the box covers the rect exactly, is dashed exactly for text, and every custom border property overrides the default |
| Utils.BaseBoxShape | src/utils.ts:53-70 | before the custom border the box's keys are the default ones plus `borderStyle` for text |
| Utils.ActionOffsetResolves | src/utils.ts:92 | the gap "2rpx" converts without error to the handle offset |
| Utils.HandleSideResolves | src/utils.ts:93 | the handle side "48rpx" converts without error to the handle size |
| Utils.HandleCssShape | src/utils.ts:94-104 | every handle is 48rpx square with its corner at the given position and no colour of its own |
| Utils.GetScaleIcon | src/utils.ts:77-106 | the scale handle has id "scale", one css record and no layout yet |
| Utils.ScaleIconShape | src/utils.ts:77-106 | the handle's left edge is one gap right of the box's right edge; its top is the box's top edge (text) or bottom edge (other views) minus the gap and half the handle side, so it is centred one gap above that edge; 48rpx square; a custom icon makes it an image with the text or image icon, else it is a blue rect |
| Utils.GetDeleteIcon | src/utils.ts:108-134 | the delete handle has id "delete", one css record and no layout yet |
| Utils.DeleteIconShape | src/utils.ts:108-134 | the handle's left edge is one gap left of the box's left edge, so the handle overlaps the box; its top is the box's top edge minus the gap and half the handle side, centred one gap above that edge; 48rpx square; a custom icon makes it an image with that url, else it is a blue rect |
| Utils.DeleteHandleAtDefaultScale | src/utils.ts:123-128 | at screenK 0.5 and scale 1 the delete handle's corner is 1px left of and 13px above the box's |
| Editor.Loaded | src/index.tsx:555-590 | after a palette is shown nothing is selected and the session is consistent |
| Editor.LayOut | src/index.tsx:338 | the painter gives every overlay view a box and keeps the ids in order |
| Editor.Overlays | src/index.tsx:326-337 | the overlay starts with the box; the scale handle is present iff `scalable` is truthy and the delete handle iff `deletable` |
| Editor.Stack | src/index.tsx:330-337 | box first, then scale when scalable, delete last when deletable, and neither handle otherwise |
| Editor.Redraw | src/index.tsx:315-342 | paints the selection on the global canvas, reports it, paints the overlay on the front canvas; only the overlay of the session changes |
| Editor.RedrawHandles | src/index.tsx:326-337 | after a repaint no point is in a delete handle unless the view is deletable, and none in a scale handle unless it is scalable |
| Editor.Refresh | src/index.tsx:259-262 | `doAction()` with a selection outside canvas-2d mode is exactly the repaint of the selection; otherwise it does nothing; it never paints a layer canvas and changes no view |
| Editor.SliceLayers | src/index.tsx:414-446 | keeps the palette and selection and records the split index as the previous one |
| Editor.SliceLayersPaints | src/index.tsx:414-446 | bottom canvas gets the views below the selection with the background, top canvas those above, the repaint in between; bottom first iff the previous index was lower |
| Editor.LayeredPaints | src/index.tsx:415-444 | the two layer paints with the selected view give back every view, each canvas its own side |
| Editor.FramedPaints | src/index.tsx:428-444 | two paints of different canvases around others that touch neither determine what each canvas shows |
| Editor.Patch | src/index.tsx:263-278 | overwrite replaces the css, otherwise it is merged; a given box replaces the view's; nothing else changes |
| Editor.UpdateText | src/index.tsx:305-310 | text and content change only when both the view's and the action's are set |
| Editor.Retarget | src/index.tsx:246-258 | an action naming another existing id selects its first view, records it as the previous selection and emits the layer split around it; anything else changes nothing |
| Editor.DoAction | src/index.tsx:241-313 | no-op in canvas-2d mode; only the selected view can change and the number of views is kept; nothing selected leaves the palette alone |
| Editor.Edit | src/index.tsx:259-312 | after the possible reselection: nothing selected stops; a new image url patches the view and only asks the downloader; any other action patches, updates text and repaints the view; the reselection's events come first |
| Editor.ActionOnSelection | src/index.tsx:259-312 | an action with no id and no new url is: patch, update text, then repaint the selection |
| Editor.CssEditKeepsSelection | src/index.tsx:263-311 | a css-only edit merges into the selected view and repaints it |
| Editor.NewUrlDownloads | src/index.tsx:279-303 | a new image url only asks the downloader for it; text and url stay as they were until then |
| Editor.ActionOnNamedView | src/index.tsx:246-312 | an action naming another view selects that view, splits the layers around it, then patches it, updates its text and repaints it |
| Editor.NamedViewDownloads | src/index.tsx:246-303 | an action naming another view with a new image url selects and patches that view, splits the layers, then only asks the downloader |
| Editor.EditIsIdempotent | src/index.tsx:263-310 | patching and updating the text twice with one action is doing it once |
| Editor.ActionIsIdempotent | src/index.tsx:241-313 | repeating an action with no id and no new url leaves the palette as one application does |
| Editor.ScanDown | src/index.tsx:354-369 | a delete hit is a view with the selection's id while the point is in the delete handle; all hit indices are in range |
| Editor.ScanFindsDelete | src/index.tsx:354-362 | the scan stops iff a view with the selection's id exists below n and the point is in the delete handle, and it stops at the topmost such view |
| Editor.ScanCollectsHits | src/index.tsx:363-368 | without a delete the hits are, topmost first and without repeats, exactly the views containing the point |
| Editor.ScanStops | src/index.tsx:357-361 | a view with the selection's id and a point in the delete handle stop the scan |
| Editor.ScanMissesEverything | src/index.tsx:363-372 | no view containing the point and no delete hit give an empty hit list |
| Editor.CandidatesAreTheTouchableHits | src/index.tsx:375 | the touchable hits are exactly the id-bearing views containing the point, topmost first, without repeats |
| Editor.CandidatesSelectable | src/index.tsx:375 | every touchable hit is an in-range view with an id |
| Editor.ScanThenFilter | src/index.tsx:363-375 | filtering the scan's hits for ids gives the touchable hits |
| Editor.Position | src/index.tsx:379-384 | the first position of the current selection in the list, none iff it is absent |
| Editor.NextSelection | src/index.tsx:379-389 | the hit after the current selection, wrapping to the first; the first when the selection is absent |
| Editor.PositionOfDistinct | src/index.tsx:379-384 | in a repeat-free list an element's first position is its position |
| Editor.TapsWalkDown | src/index.tsx:374-389 | repeated taps on one spot select the touchable hits top to bottom |
| Editor.TapsWrapAround | src/index.tsx:385-387 | the tap after the bottom-most hit selects the topmost again |
| Editor.ThreeStackedViews | src/index.tsx:374-389 | three stacked views are selected 2, 1, 0, then 2 |
| Editor.Tap | src/index.tsx:344-412 | delete in the handle wins and clears the selection; otherwise something is selected iff some touchable hit exists, it is the next one, it becomes the previous selection and the layers are split around it after the click report |
| Editor.Pick | src/index.tsx:370-411 | no hit reports the background after clearing the overlay; hits without ids only clear the overlay; otherwise the next touchable hit is selected, reported first, recorded as the previous selection and the layers are split around it |
| Editor.Select | src/index.tsx:388-411 | the next touchable hit is selected and reported first, then the layers are split around it and it becomes the previous selection |
| Editor.TapDeletes | src/index.tsx:357-408 | a tap in the delete handle asks to delete the topmost view with the selection's id, whatever else is hit, and clears the selection |
| Editor.TapOnUnnamedViews | src/index.tsx:375-408 | a tap that hits only views without an id clears the overlay, selects nothing and reports nothing |
| Editor.TapOnBackground | src/index.tsx:370-408 | a tap on no view reports the background and clears the selection |
| Editor.TouchStart | src/index.tsx:448-468 | records start point and time; the gesture is a resize iff a view is selected and the press is in the scale handle, and then the start size is recorded; disabled does nothing |
| Editor.TouchEnd | src/index.tsx:470-484 | a quick unmoved release taps unless resizing; another release reports the selection; the move flag is cleared; disabled does nothing |
| Editor.TouchMove | src/index.tsx:486-538 | marks a move; without selection nothing else; resize keeps the start point, drag moves it to the finger; only the selected view can change |
| Editor.AtLeastOne | src/index.tsx:501 | the new width or height is the larger of the candidate and 1 |
| Editor.ImageHeight | src/index.tsx:518 | an image keeps the recorded aspect ratio; a zero start width writes Infinity or NaN into the text |
| Editor.ScalePatchShape | src/index.tsx:513-522 | the width is set; the height is set iff the view is not text, and an image's keeps the aspect ratio |
| Editor.ResizeExamples | src/index.tsx:501-522 | 100×50 image + 50 → 150×75; rect → 150×50; text dragged far left → width 1 |
| Editor.DragPatchShape | src/index.tsx:526-531 | exactly the four anchors are set: left/top to box position plus offset, right/bottom undefined |
| Editor.Drag | src/index.tsx:523-537 | the selection's css takes the drag patch, the start point follows the finger, other views are unchanged |
| Editor.DragIsAction | src/index.tsx:523-537 | the drag is `doAction` of its css patch, merged |
| Editor.DraggedView | src/index.tsx:526-537 | the dragged view's anchors are placed and only its css changes |
| Editor.DraggedKeeps | src/index.tsx:526-537 | every css key other than the four anchors keeps its value |
| Editor.DragMovesView | src/index.tsx:523-537 | a drag moves the selected view and repaints it, keeping its other properties |
| Editor.Resize | src/index.tsx:499-537 | unless vetoed the selection's css takes the scale patch; the start point stays |
| Editor.ResizeIsAction | src/index.tsx:499-537 | an unvetoed resize is `doAction` of the scale patch, merged |
| Editor.VetoedResizeChangesNothing | src/index.tsx:502-511 | a resize below a minimum width only marks the move |
| Editor.ResizeSetsSize | src/index.tsx:499-537 | an unvetoed resize sets the size keys from the scale patch, keeps the rest and repaints |
| Editor.ResizedView | src/index.tsx:513-537 | the resized css is the scale patch merged over the view's css |
| Editor.MergedPatch | src/index.tsx:273 | merging one record: its keys take its values, all other keys keep theirs |
| Editor.RepaintWith | src/index.tsx:259-311 | repainting with a new version of the selection changes that view and the overlay only |
| Editor.RepaintShows | src/index.tsx:315-342 | after repainting with a view, that view is the selection |
| Editor.RepaintSameView | src/index.tsx:315-342 | repainting the selection as it is leaves the palette alone |
| Export.Verify | src/index.tsx:745-779 | a failed read errors; past the bound it gives up; otherwise accept iff the aspect matches within 1%, repaint iff not, counting the attempt |
| Export.MatchesIffCrossBound | src/index.tsx:760-764 | matching is: the absolute cross difference w·H − W·h is below 1% of the absolute h·H, which is non-zero |
| Export.ScaledCopyMatches | src/index.tsx:760-766 | a file of the canvas's shape at any positive scale is accepted |
| Export.ExportExamples | src/index.tsx:760-769 | 750×1334 against 750×1334 is accepted; 750×1000 is repainted |
| Export.MismatchesGiveUp | src/index.tsx:750-770 | readbacks that never match end in giving up with the counter at 6 |
| Export.FreshExportGivesUpOnSeventh | src/index.tsx:750-770 | from a fresh counter six mismatches repaint and the seventh readback gives up |
| Export.MismatchesExhaust | src/index.tsx:750-770 | mismatches within the bound only ever repaint |
| Export.RunIsBounded | src/index.tsx:750-770 | every export ends within `MAX_PAINT_COUNT + 2` readbacks |
| Export.AcceptedMeansMatched | src/index.tsx:760-770 | an accepted export's counter identifies the matching readback, and every earlier one mismatched |
| Layout.FamilyOf | src/main.ts:94 | an unset font family falls back to "Microsoft YaHei" |
| Layout.Shifted | src/main.ts:32-33 | only top and left move, by the parent's position |
| Layout.PlacedCommand | src/main.ts:32-48 | a placed node draws the command of the node shifted by its parent's position |
| Layout.FirstCommand | src/main.ts:61-96 | a div fills exactly its absolute box with its background colour, an image is drawn in exactly its box, a text is written at its left edge with baseline top + font size in its family or the default; images and texts emit one command |
| Layout.DrawIsPreorder | src/main.ts:31-49 | `_draw` emits the commands of the placed tree in pre-order |
| Layout.DrawAllIsPreorder | src/main.ts:40-55 | drawing a list emits the pre-order commands of each placed tree in turn |
| Layout.PreorderSize | src/main.ts:31-49 | the pre-order lists every node once |
| Layout.PlacedSize | src/main.ts:31-49 | placing keeps the tree's size |
| Layout.DrawCount | src/main.ts:51-55 | `draw` emits exactly one command per node |
| Layout.PlacedIsAbsolute | src/main.ts:32-43 | each node ends at its own offset plus its parent's absolute position; children are placed from the div's |
| Layout.OnlyDivsFillRects | src/main.ts:36-73 | a command fills a rectangle iff its node is a div |
| Layout.TextBaseline | src/main.ts:91-96 | a text at top 10 with font size 16 is written at baseline 26 in the default family |
| Layout.RedrawShiftsChildren | src/main.ts:31-43 | drawing the same tree twice moves a nested child by its parent's offset a second time |

## Left out

- Taro and React plumbing is not modelled: hooks, `setState`, canvas contexts (`getCanvasContext`), `initScreenK`, `startPaint`, `downloadImages` and the photo canvas's pixel-ratio scaling.
- The painter kernel's `Pen` is not modelled. Its layout of views is an input (`Env.layout`), and palette views are assumed already laid out. Hit testing a view without a box throws in the source.
- Repaints do not refresh the rects of palette views. In the source, `Pen` writes a repainted view's new box back into it.
- Editor.TouchMove: successive moves of one drag do not add up in the model, because the selected view keeps the box it had when it was laid out. In the source each move reads the box the previous repaint wrote (`rect.x`, `rect.y`), so the view follows the finger. In the model each move places the view at its laid-out box shifted only by the step since the previous move. For the same reason the overlay drawn after a move or resize surrounds the laid-out box, not the repainted one.
- Units.ToPx: a text that matches the calc pattern must be given as a `CalcExpr` token body, not as plain text. The requires excludes it as plain text because splitting a calc text into tokens is not modelled.
- Downloads are not modelled beyond the request. `doAction` with a new image url yields a `Download` event. The later url swap and repaint are left out.
- `clearPenCache` (called on resize) and the deep comparison `equal` are not modelled. `equal` is a parameter of the repaint decision.
- The calc expression lexer and evaluator are left out. A calc body is a token list, and the evaluator is a function parameter.
- The size literal pattern is read anchored to the whole text. The source's unanchored regular expression accepts text around a literal, and `parseFloat` reads the leading number. Those quirks are left out, and so are NaN and infinite sizes.
- In `main.ts`, `parseInt` of non-numeric style text (NaN) is left out. Styles hold integers. `drawBorder`, `clear` and the deferred `Image.onload` timing are not modelled. Images are drawn in walk order.
- `Date.now()` is a parameter of the touch handlers. Taps use the 500 ms window.
- `clearActionBox`, `disableAction` and `dancePalette` updates beyond the initial session are not modelled. `Loaded` gives the session after `initDancePalette`.
- Editor.Loaded: states only that the session is consistent and nothing is selected. All of its other fields are constants.
- Utils.GetBox: its own contract states only the id, kind and record form. The css is stated by `Utils.BoxShape`.
- Utils.GetScaleIcon: its own contract states only the id and record form. Placement and look are stated by `Utils.ScaleIconShape`.
- Utils.GetDeleteIcon: its own contract states only the id and record form. Placement and look are stated by `Utils.DeleteIconShape`.
- Export.Verify: the readbacks and the canvas size are inputs, because exporting the canvas to a file is I/O. The source checks the counter 0 to 5 before the terminal error, so it verifies six attempts while its message says "5 times". The model follows the code.
