# Verified model of four scripts and two browser components

This project models the parts of the repository that decide something by an algorithm, and proves what those
parts are for. There is one module for each component, plus small ones for text, JSON, UTF-8 and Turtle.
`dafny verify dfyconfig.toml` checks it all.

**Expressions and style text** (`ExprEval`, `Css`, `CssText`). The template evaluator has no syntax tree: it trims, strips
outer parentheses, splits at the leftmost top-level equality and walks paths, always on slices of the text. The
model has these procedures and a grammar of trees, and proves that slicing the printed text evaluates the tree.
The style scanners skip strings, parentheses and unquoted urls; the model proves that what they cut and strip is
what it should be, also for styles written from tokens of their own, and that marking declarations twice marks them
once.

**The deck** (`DeckOrder`, `DeckProtocol`, `DeckStage`, `Rail`, `ChildList`). A structural edit is made by the deck
itself, or emitted to a host while the deck moves on optimistically. `DeckProtocol` is the state machine of both
ways, `DeckStage` the element with its fields and light DOM edited in place, `Rail` the thumbnails, the navigation
past skipped slides and the numbers. One structural edit is in flight at a time.

**Keys and lifecycle** (`DeckKeys`, `Lifecycle`, `LifecycleHistory`). The keys given to a deck's children, and the mount and unmount
calls that the streaming wrapper owes the logic instances it swaps.

**The definition-of-done court** (`Glob`, `Pointer`, `PointerMeaning`, `TestClasses`, on `Json`). The path pattern compiler against a
matcher of components, JSON pointers from the script that writes them to the script that resolves them, what any
pointer text resolves to, schema mutants, and the fixpoint over test classes.

**The claims ledger** (`Claims`). The three-colour search over premises and the rules for each class of claims;
together they make every inference well-founded.

**The span binder** (`Spans`, `SpanMeaning`, `Utf8`, `Turtle`, `TurtleReader`, `SpanRender`, `SpanReading`,
`SpanCheck`, `SpanSound`, `SpanEmit`, `SpanGraph`). Quotes are bound to byte spans, sorted, named and written as Turtle; a reader for that part of Turtle
turns the text into triples, character by character; the checker re-verifies the triples. `SpanMeaning` and
`SpanSound` say what binding and checking mean over the fields of an item and over the triples of a graph. The result
says exactly when a document that was emitted passes, and what it then says.

## Where the code keeps less than its comments say

Each of these is proved with a failing case, concrete or general, and but for the last with a condition under which,
and only under which, the promise is kept.

- Mount and unmount calls are paired exactly if no render swaps the instance before the first commit
  (`Lifecycle.CallsArePairedIff`). One does if a class arrives in between (`Lifecycle.ClassArrivesEarly`), or if version
  or properties change after a failed construction; classes are fetched asynchronously, so this needs a schedule in which
  React renders the wrapper again before it commits, such as a concurrent render that is interrupted and resumed. It
  also happens at the first ordinary render if the constructor fails while a property is a NaN, which is not equal to
  itself, so that the failure is not recognised (`Lifecycle.NaNIsTriedAgain`, `Lifecycle.SteadyRunsPairedIff`).
- An undefined property is taken for one that is missing, so that after a failed construction changed properties can go
  unnoticed; properties that compare equal have the same keys exactly if no undefined one is missing in the other
  (`LifecycleHistory.KeysAgreeIff`, `LifecycleHistory.UndefinedLooksMissing`).
- A refused edit goes back to the right index unless an earlier acknowledgement was lost
  (`DeckProtocol.RefusalRestoresIff`, `DeckProtocol.LostAckMisleads`, and over whole runs
  `DeckProtocol.RunsAgreeIff`); with a hash out of step the host's way and the deck's own way may differ
  (`DeckProtocol.HostAgreesIff`, `DeckProtocol.StaleHashMisleads`).
- The court accepts every mutant of a schema unless `required` is a non-empty string or object
  (`Pointer.DerivedAcceptance`).
- An emitted document passes its own check unless the namespace argument is relative, such as `x` or nothing at all
  (`TurtleReader.SomeAreRelative`), or the prefix argument redefines `sj`, or redefines `dcterms` while some candidate has acceptance criteria or falsifiers
  (`SpanEmit.EmitPassesIff`, `SpanEmit.RelativeNamesMove`). The statement is about gates that can be read back. The
  name patterns also let through a dotted gate with a final newline, and such a name is no IRI reference in the grammar
  of Turtle (`SpanReading.DottedNewlineIsUnreadable`); whether a parser minds is up to the parser.
- Quoted text is read as that text unless it shows an equality operator outside brackets (`ExprEval.QuotedReadsIff`,
  `ExprEval.QuotedEqualityIsSplit`).
- `**` inside a component crosses slashes (`Glob.InnerStarsCross`), so the component reading of a pattern is proved for
  whole `**` components only.

## Model

| member | source | states |
|---|---|---|
| ExprEval.ResolveIsEval | docs/case-studies/next-read/deck/support.js:205-294 | For every tree of the expression grammar (paths with dot and index segments, numbers, quoted text with balanced brackets and no equality sign outside them, keywords, negation, the four equalities, redundant parentheses) and any white space around it, evaluating the printed text by slicing gives the value of the tree, over any type of values and any meaning of lookup and loose equality |
| ExprEval.Resolve | docs/case-studies/next-read/deck/support.js:205-236 | The slicing evaluator terminates on every input, each slice being strictly shorter, and computes the text meaning that the round trip above is about, also for text outside the grammar |
| ExprEval.ParensWrapWhole | docs/case-studies/next-read/deck/support.js:237-247 | True exactly when no closing parenthesis before the last character brings the depth back to zero, so that the first and the last belong together |
| ExprEval.FindTopLevelEquality | docs/case-studies/next-read/deck/support.js:248-262 | Finds the leftmost position outside brackets that starts an equality operator, is not the tail of one, and has visible text before it; or there is none |
| ExprEval.ResolvePath | docs/case-studies/next-read/deck/support.js:263-294 | Walks a path segment by segment to the value the text denotes, undefined at the first malformed segment |
| ExprEval.FindClosing | docs/case-studies/next-read/deck/support.js:275-284 | The first position that closes the square bracket opened at a given one, however brackets nest; or none |
| ExprEval.EqualitySplits | docs/case-studies/next-read/deck/support.js:208-226 | In a printed equality the split falls at its own operator and nowhere else, and no parentheses are stripped around it |
| ExprEval.PrintedShape | docs/case-studies/next-read/deck/support.js:248-262 | Printed text is balanced for every kind of bracket, and only an equality exposes an equality sign at depth zero |
| ExprEval.PathCorrect | docs/case-studies/next-read/deck/support.js:263-294 | Walking the text of a path, whatever segments follow it, reaches the value of the path and its last character |
| ExprEval.QuotedReadsIff | docs/case-studies/next-read/deck/support.js:211-235 | Any quoted text by itself, whatever brackets and signs it holds, is read as that text exactly if the scanner sees no equality operator at depth zero in it; else it is read as a comparison |
| ExprEval.QuotedEqualityIsSplit | docs/case-studies/next-read/deck/support.js:211-226 | One such text: "a==b" in quotes evaluates to the comparison of two undefined values |
| ExprEval.NumberIff | docs/case-studies/next-read/deck/support.js:231-231 | A number is an optional minus, digits, and an optional point with digits, and nothing else is one |
| ExprEval.IdentLenIs | docs/case-studies/next-read/deck/support.js:264-265 | The head of a path is a letter, underscore or dollar sign and all the name characters that follow |
| ExprEval.MemberLenIs | docs/case-studies/next-read/deck/support.js:270-271 | A member name after a dot is an identifier, or else all the digits that follow |
| ExprEval.NullishPathIsUndefined | docs/case-studies/next-read/deck/support.js:267-289 | A path through a null or undefined value is undefined, whatever follows it |
| Css.ScanUnquotedUrl | docs/case-studies/next-read/deck/support.js:1498-1510 | The end of the unquoted url token at a position, -1 when none starts there; an unterminated one runs to the end of the text |
| Css.StripComments | docs/case-studies/next-read/deck/support.js:1511-1541 | Computes the comment-free text that StripIsClean and CleanStripsToItself characterise |
| Css.StripIsClean | docs/case-studies/next-read/deck/support.js:1511-1541 | Read by the same scanner, the stripped text holds no comment outside strings and urls, whatever the text was |
| Css.CleanStripsToItself | docs/case-studies/next-read/deck/support.js:1511-1541 | A text without comments is returned unchanged |
| Css.Importantify | docs/case-studies/next-read/deck/support.js:1542-1565 | Computes the declarations of the text, each finished, joined by semicolons; the loop by positions agrees with the recursive cut |
| Css.SplitJoins | docs/case-studies/next-read/deck/support.js:1544-1564 | Putting the pieces back together gives the text: the cuts removed exactly the separating semicolons |
| Css.SplitFirst | docs/case-studies/next-read/deck/support.js:1544-1564 | Each piece is a prefix of what was left, followed by the semicolon it was cut at |
| Css.SplitIsWellCut | docs/case-studies/next-read/deck/support.js:1544-1564 | Of a comment-free text every piece but the last ends outside strings, parentheses and urls, so no cut falls inside one |
| Css.JoinThenSplit | docs/case-studies/next-read/deck/support.js:1544-1565 | Well-cut pieces joined by semicolons are cut into the same pieces again, and no comment appears at a joint |
| Css.NeutralEnd | docs/case-studies/next-read/deck/support.js:1565-1565 | Appending a character of the mark, or white space, does not change in which state a text ends |
| Css.DeclarationsAreFinished | docs/case-studies/next-read/deck/support.js:1565-1565 | Every declaration written is non-empty, trimmed and ends in the important mark, and all are well cut |
| Css.ImportantifyIsIdempotent | docs/case-studies/next-read/deck/support.js:1542-1566 | Doing it again changes nothing, the declarations are the same ones, and the result holds no comment |
| Css.DeclarationsAre | docs/case-studies/next-read/deck/support.js:1565-1565 | Each piece that is not all white space gives one declaration, in order: the piece trimmed, with the mark added exactly if no exclamation mark, white space and important in either case end it |
| Css.CommentBecomesSpace | docs/case-studies/next-read/deck/support.js:1527-1531 | After a comment-free text that ends outside strings and urls, a comment up to its first closing mark becomes one space and the text behind it is stripped in turn |
| Css.OpenCommentBecomesSpace | docs/case-studies/next-read/deck/support.js:1527-1531 | A comment without a closing mark becomes one space and ends the text |
| CssText.WrittenEnds | docs/case-studies/next-read/deck/support.js:1548-1563 | A text written from tokens (strings with escapes, unquoted urls, parentheses, other characters) without a semicolon outside parentheses is whole if its parentheses are closed and open otherwise |
| CssText.WrittenBreaks | docs/case-studies/next-read/deck/support.js:1548-1563 | Behind such tokens a semicolon outside parentheses, or the start of a comment, is seen as one |
| CssText.WrittenOpens | docs/case-studies/next-read/deck/support.js:1548-1563 | A string or an unquoted url that is not closed leaves the text open |
| CssText.StyleIsRead | docs/case-studies/next-read/deck/support.js:1542-1566 | A style of declarations written from tokens is cut into just these, whatever semicolons, quotes and parentheses stand in their strings, urls and parentheses, and each visible one comes out trimmed and marked |
| DeckKeys.WalkDeckChildren | docs/case-studies/next-read/deck/support.js:493-538 | Gives keys exactly to the child lists where every text node is blank, no control-flow element occurs and the slide ids are valid and distinct, and then the key each position calls for |
| DeckKeys.KeysAreDistinct | docs/case-studies/next-read/deck/support.js:508-538 | All keys of a list are different strings, across slide, white-space and auxiliary keys |
| DeckKeys.SlideKeepsKey | docs/case-studies/next-read/deck/support.js:529-536 | A slide's key is the same in any two keyed lists, so reordering leaves it |
| DeckKeys.BlankKeyIs | docs/case-studies/next-read/deck/support.js:500-520 | The white space before a slide is keyed by its id and counted within its own gap, so it keeps its key when slides are reordered |
| DeckKeys.OtherBlankKeyIs | docs/case-studies/next-read/deck/support.js:515-517 | White space that stands before no slide is counted together under one auxiliary key |
| Lifecycle.StreamableComponent.constructor | docs/case-studies/next-read/deck/support.js:892-924 | The wrapper starts with one constructed instance, and a failed construction on record |
| Lifecycle.StreamableComponent.MakeLogic | docs/case-studies/next-read/deck/support.js:940-960 | Installs the instance of a class, or the base class and a record of the failure when its constructor throws |
| Lifecycle.StreamableComponent.ReconcileLogic | docs/case-studies/next-read/deck/support.js:976-992 | Swaps the instance exactly when the class changed and the attempt is not one remembered as failed, unmounting the old one first |
| Lifecycle.StreamableComponent.RenderOnce | docs/case-studies/next-read/deck/support.js:1029-1072 | A render reconciles unless it is circular or shows an error |
| Lifecycle.StreamableComponent.ComponentDidMount | docs/case-studies/next-read/deck/support.js:993-1000 | The first commit mounts the instance |
| Lifecycle.StreamableComponent.ComponentDidUpdate | docs/case-studies/next-read/deck/support.js:1001-1018 | A later commit mounts a swapped instance once a template is there, and otherwise updates |
| Lifecycle.StreamableComponent.ComponentWillUnmount | docs/case-studies/next-read/deck/support.js:1019-1028 | Removal unmounts the instance |
| Lifecycle.StreamableComponent.SetError | docs/case-studies/next-read/deck/support.js:917-930 | A render error is recorded, and a notice from the registry clears it, without touching the instance |
| Lifecycle.CallsArePairedIff | docs/case-studies/next-read/deck/support.js:940-1028 | Over every run of a wrapper from its construction, every instance is mounted at most once, updated only while mounted and unmounted at most once and only after its mount, exactly when no render swaps the instance before the first commit |
| Lifecycle.NobodyIsLeftMounted | docs/case-studies/next-read/deck/support.js:976-1028 | In such a run an instance still mounted is the current one of a wrapper still mounted: each replaced or removed one was unmounted |
| Lifecycle.SelfEqualIff | docs/case-studies/next-read/deck/support.js:854-861 | Properties are shallowly equal to themselves exactly if none of them but the children is a NaN |
| Lifecycle.SteadyEntryIsSafe | docs/case-studies/next-read/deck/support.js:976-992 | Class, version and properties on which a render does not swap never make one swap while they stay the same |
| Lifecycle.ConstructionSwapsIff | docs/case-studies/next-read/deck/support.js:976-982 | Right after construction a render that sees the same class, version and properties swaps exactly if the constructor failed and a property is a NaN |
| Lifecycle.SteadyRunsPairedIff | docs/case-studies/next-read/deck/support.js:940-1028 | Over a run in which class, version and properties never change, calls are paired exactly if the constructor did not fail, or no property is a NaN, or no render reconciles before the first commit |
| Lifecycle.EarlyRun | docs/case-studies/next-read/deck/support.js:983-1008 | Whatever is swapped in by a render before the first commit is mounted by that commit and again by the next, and the instance it replaces is unmounted without having been mounted |
| Lifecycle.ClassArrivesEarly | docs/case-studies/next-read/deck/support.js:985-1008 | A failing case: a class arrives between construction and first commit |
| Lifecycle.NaNIsTriedAgain | docs/case-studies/next-read/deck/support.js:976-1008 | A failing case: nothing arrives or changes, but the constructor failed with a NaN among the properties, so the first render tries again |
| LifecycleHistory.RenderInstalls | docs/case-studies/next-read/deck/support.js:976-992 | After any run, a render that reaches the instance keeps it exactly if it is of the class wanted or the latest construction of the run failed for the same class, version and properties; otherwise it installs a new instance of that class, or of the base class if the constructor throws |
| LifecycleHistory.RunTells | docs/case-studies/next-read/deck/support.js:976-1028 | In a run without an early swap each step tells the instances exactly what their calls so far leave owing: mount at the first commit, or at the first later one with a template and without an error; update if mounted; unmount if replaced or removed while mounted |
| LifecycleHistory.ErrorShows | docs/case-studies/next-read/deck/support.js:917-930 | An error shows from the last failure on until the registry notifies |
| LifecycleHistory.ShallowEqualIff | docs/case-studies/next-read/deck/support.js:854-861 | Properties none of which is undefined compare equal exactly if they have the same keys but for the children and the same values, none a NaN |
| LifecycleHistory.KeysAgreeIff | docs/case-studies/next-read/deck/support.js:854-861 | Of properties that compare equal the keys agree exactly if no undefined one of the first is missing in the second |
| LifecycleHistory.UndefinedLooksMissing | docs/case-studies/next-read/deck/support.js:854-861 | The condition is needed: an undefined property is equal to one that is not there |
| DeckOrder.BulkDeleteKeepsPlace | docs/case-studies/next-read/deck/deck-stage.js:2753-2771 | After deleting any proper subset the new index names the slide that was current if it stays, else the nearest that stays after it, else before it |
| DeckOrder.NearestIsUnique | docs/case-studies/next-read/deck/deck-stage.js:2760-2770 | There is only one such slide |
| DeckOrder.SingleDeleteIsBulk | docs/case-studies/next-read/deck/deck-stage.js:2785-2798 | The one-slide formula gives the same place as a bulk delete of that slide |
| DeckOrder.RankIs | docs/case-studies/next-read/deck/deck-stage.js:2756-2756 | Counting the deletions below an index gives the rank of its slide among those that stay |
| DeckOrder.MovedIs | docs/case-studies/next-read/deck/deck-stage.js:2936-2951 | A move puts one slide at its target and keeps the order of all others |
| DeckOrder.MovedAt | docs/case-studies/next-read/deck/deck-stage.js:2936-2951 | Where every slide stands after a move, position by position |
| DeckOrder.MoveKeepsPlace | docs/case-studies/next-read/deck/deck-stage.js:2936-2951 | The move's new index names the slide that was current |
| DeckOrder.DropLands | docs/case-studies/next-read/deck/deck-stage.js:2099-2110 | Dropping a slide on the upper or lower half of another leaves it immediately before or after that one |
| DeckOrder.DuplicatedIs | docs/case-studies/next-read/deck/deck-stage.js:2819-2819 | A duplicate stands right after its slide and changes nothing else |
| DeckProtocol.NearestIndexIsNearest | docs/case-studies/next-read/deck/deck-stage.js:2758-2771 | The two searches of the bulk delete find the nearest slide that stays |
| DeckProtocol.NewIndexFits | docs/case-studies/next-read/deck/deck-stage.js:2734-2951 | Every structural edit leaves distinct slides and asks for an index within them |
| DeckProtocol.HostAgrees | docs/case-studies/next-read/deck/deck-stage.js:2691-2726 | From a deck at rest, lock and optimistic move, then host edit and acknowledgement in either order, end in the very state the local edit ends in; a refusal ends in the state it began with; both come back to rest |
| DeckProtocol.HostAgreesIff | docs/case-studies/next-read/deck/deck-stage.js:1489-1498 | Without the hash in step, the two agree exactly if the edit moves the index, or the stale hash names no slide of the edited deck or the right one |
| DeckProtocol.StaleHashMisleads | docs/case-studies/next-read/deck/deck-stage.js:1489-1498 | The failing case: deleting the last of three slides while the hash names the second ends on the second through the host and on the first locally |
| DeckProtocol.RefusalRestoresIff | docs/case-studies/next-read/deck/deck-stage.js:1673-1679 | A refusal restores the deck exactly if the edit moved the index, or no other index was left behind by an earlier one |
| DeckProtocol.LostAckLeavesIndex | docs/case-studies/next-read/deck/deck-stage.js:2691-2726 | What an edit leaves behind when the slides change but the acknowledgement is lost |
| DeckProtocol.LostAckMisleads | docs/case-studies/next-read/deck/deck-stage.js:1673-1679 | The failing case: refusing a later edit that does not move the index then throws the deck back to the index before the earlier edit |
| DeckProtocol.RunViaHost | docs/case-studies/next-read/deck/deck-stage.js:1670-1680 | Any run of edits, each answered before the next, goes from rest to rest |
| DeckProtocol.TurnAgreesIff | docs/case-studies/next-read/deck/deck-stage.js:1670-1680 | From a deck whose acknowledgements may have been lost, one turn shows the same both ways exactly if it is no refusal, or the edit moved the index, or no other index was left behind |
| DeckProtocol.RunsAgreeIff | docs/case-studies/next-read/deck/deck-stage.js:2691-2951 | Over any run, lost acknowledgements included, both decks show the same after every turn exactly if every refusal in it meets that guard |
| DeckProtocol.PromptRunsRestore | docs/case-studies/next-read/deck/deck-stage.js:1394-1420 | In a run without lost acknowledgements every refusal does |
| DeckProtocol.RunsAgree | docs/case-studies/next-read/deck/deck-stage.js:2691-2951 | Over any such run the deck that waits for its host and the deck that edits itself go through the same states, refused edits having no effect |
| DeckStage.Deck.CollectSlides | docs/case-studies/next-read/deck/deck-stage.js:1422-1455 | The slide list is the slides of the light DOM, the index is kept inside it, and slides that are gone leave the selection |
| DeckStage.Deck.RestoreIndex | docs/case-studies/next-read/deck/deck-stage.js:1489-1498 | A hash that names a slide sets the index |
| DeckStage.Deck.ApplyIndex | docs/case-studies/next-read/deck/deck-stage.js:1500-1507 | The hash follows the index on a deck with slides |
| DeckStage.Deck.OnSlotChange | docs/case-studies/next-read/deck/deck-stage.js:1394-1420 | A change the deck made itself is passed over once; any other unlocks, recollects and restores |
| DeckStage.Deck.OnAck | docs/case-studies/next-read/deck/deck-stage.js:1673-1680 | An acknowledgement unlocks and forgets the index before; a refusal goes back to it |
| DeckStage.Deck.EmitDcOp | docs/case-studies/next-read/deck/deck-stage.js:2691-2726 | An edit is emitted, held back or left to the deck according to the runtime; an emitted one locks and moves on optimistically |
| DeckStage.Deck.DeleteSlide | docs/case-studies/next-read/deck/deck-stage.js:2785-2798 | The single delete, in every runtime: the whole new state, the DOM and what was sent |
| DeckStage.Deck.Survivor | docs/case-studies/next-read/deck/deck-stage.js:2761-2769 | The index search of the bulk delete returns the nearest slide that stays, -1 when none does |
| DeckStage.Deck.DeleteSlides | docs/case-studies/next-read/deck/deck-stage.js:2734-2782 | The bulk delete of any list of numbers: duplicates and misses dropped, nothing when all or none would go, a single one by the single delete |
| DeckStage.Deck.DuplicateSlide | docs/case-studies/next-read/deck/deck-stage.js:2800-2822 | The duplicate, in every runtime |
| DeckStage.Deck.MoveSlide | docs/case-studies/next-read/deck/deck-stage.js:2936-2951 | The move, in every runtime |
| DeckStage.MoveInDom | docs/case-studies/next-read/deck/deck-stage.js:2945-2948 | Inserting before the reference node the deck picks, among other nodes, moves the slide to its target among the slides |
| DeckStage.DuplicateInDom | docs/case-studies/next-read/deck/deck-stage.js:2819-2819 | Inserting the copy before the next sibling duplicates the slide |
| DeckStage.RebuiltSlides | docs/case-studies/next-read/deck/deck-stage.js:2734-2951 | The light DOM rebuilt by an edit has distinct nodes and holds exactly the edited slides |
| Rail.Rail.RenderRail | docs/case-studies/next-read/deck/deck-stage.js:1869-1899 | From any list of thumbs in the rail, one for each of some slides, and any new list of distinct slides, the children of the rail end as the thumbs of the slides in order, before what else it held; each slide that had a thumb keeps that object; numbers and marks are right |
| Rail.Rail.Matched | docs/case-studies/next-read/deck/deck-stage.js:1871-1879 | One thumb for each slide, the old one where there is one |
| Rail.Rail.DropOrphans | docs/case-studies/next-read/deck/deck-stage.js:1880-1884 | Exactly the thumbs without a slide leave the rail |
| Rail.Rail.Arrange | docs/case-studies/next-read/deck/deck-stage.js:1885-1898 | The insertBefore loop ends with the thumbs first and in order, the other children behind them |
| Rail.Placed | docs/case-studies/next-read/deck/deck-stage.js:1888-1891 | One turn of that loop moves the wanted child right behind the ones already in order and nothing else |
| Rail.LeftOvers | docs/case-studies/next-read/deck/deck-stage.js:1880-1898 | Children that are no thumbs stay |
| Rail.Rail.Advance | docs/case-studies/next-read/deck/deck-stage.js:1838-1846 | Lands on the nearest slide in the direction that is not skipped, and stays when there is none |
| Rail.NextThenPrevious | docs/case-studies/next-read/deck/deck-stage.js:1838-1846 | Next and then previous returns to a start that is not skipped, and to no other slide |
| Rail.Rail.RenumberRail | docs/case-studies/next-read/deck/deck-stage.js:2887-2893 | Each thumb gets the number of its slide, none for a skipped one |
| Rail.Rail.SlideLabel | docs/case-studies/next-read/deck/deck-stage.js:2899-2907 | The label of a slide is the number on its thumb |
| Rail.Rail.SyncCount | docs/case-studies/next-read/deck/deck-stage.js:2913-2934 | The counter shows the same number over the total, a dash for a skipped slide |
| Rail.NumbersAreContiguous | docs/case-studies/next-read/deck/deck-stage.js:2887-2934 | Each of 1 to the total is painted on exactly one slide |
| Glob.GlobToRe | priv/verifiers/aps_dod_court.py:204-223 | The compiler loop yields the pieces of the regular expression that the pattern stands for |
| Glob.CompiledPath | priv/verifiers/aps_dod_court.py:204-223 | Where ** appears only as a whole component, the compiled expression matches a path exactly if its components match: leading and middle ** take any number of components, a trailing one at least one, * and ? never cross a slash |
| Glob.GlobMeaning | priv/verifiers/aps_dod_court.py:204-226 | The same for the anchored match that the court makes, on every path, with the one final newline the expression overlooks |
| Glob.InnerStarsCross | priv/verifiers/aps_dod_court.py:209-216 | The condition is needed: a**b matches a/b, which no component does |
| Pointer.TokenRoundTrip | priv/verifiers/aps_backlog.py:73-73 | Unescaping an escaped key gives the key, whatever tildes and slashes it holds |
| Pointer.IndexRoundTrip | priv/verifiers/aps_dod_court.py:585-585 | A list index is written and read back as itself |
| Pointer.PointerGet | priv/verifiers/aps_dod_court.py:577-587 | Walks a pointer token by token; None for whatever raises |
| Pointer.LookupFollowsSteps | priv/verifiers/aps_dod_court.py:577-587 | The pointer of any place in any document leads to that place |
| Pointer.WalkEnumsIsExact | priv/verifiers/aps_backlog.py:67-77 | An entry is listed exactly if its place holds that enum, and the court resolves every listed pointer to the object that holds it |
| Pointer.ApplyMutant | priv/verifiers/aps_dod_court.py:589-621 | The mutant applied to a document, None when it is refused |
| Pointer.MutatedIsPut | priv/verifiers/aps_dod_court.py:589-621 | Mutating at a pointer exchanges exactly the node at its place by its edited form |
| Pointer.PutSeen | priv/verifiers/aps_dod_court.py:589-621 | After an exchange the new node is seen below its place and the old document everywhere off its path |
| Pointer.EditTouchesOneField | priv/verifiers/aps_dod_court.py:589-621 | Inside the mutated object every other field is as before |
| Pointer.DroppedPropertyGoes | priv/verifiers/aps_dod_court.py:612-617 | Deleting a property takes exactly that one out of the object of properties and keeps every other |
| Pointer.DroppedItemGoes | priv/verifiers/aps_dod_court.py:595-611 | Dropping a required name or an enum value takes out its first occurrence and leaves all other items in place |
| Pointer.WidenedIsOpen | priv/verifiers/aps_dod_court.py:601-605 | Widening turns a closed object into an open one |
| Pointer.DeriveMutants | priv/verifiers/aps_backlog.py:80-93 | The mutants of a schema, in order: one for each of the first four required properties, one for a closed object, and one for each non-empty enum among the first two; None where the listing raises |
| Pointer.DerivedMutantApplies | priv/verifiers/aps_backlog.py:80-93 | Every derived mutant is accepted by the court and changes its one place only |
| Pointer.DerivedAcceptance | priv/verifiers/aps_backlog.py:80-93 | All derived mutants are accepted exactly if required is a list or lists nothing; a non-empty string or object there is derived from but cannot be removed from |
| PointerMeaning.UnescapesInOnePass | priv/verifiers/aps_dod_court.py:584-584 | The two replacements, one after the other, read a token in one pass: ~1 is a slash, ~0 a tilde, any other tilde itself |
| PointerMeaning.PyIntIff | priv/verifiers/aps_dod_court.py:585-585 | A list token is read as a number exactly if it is that number, with any sign, leading zeros, single underscores between digits and outer white space |
| PointerMeaning.LookupIff | priv/verifiers/aps_dod_court.py:577-586 | A pointer of any form resolves to a value exactly if its tokens stand for steps (a key of an object, an index of a list from either end) that lead to it; every other pointer is refused |
| PointerMeaning.LookupIsAt | priv/verifiers/aps_dod_court.py:577-586 | A pointer written from keys asked of objects and indices of lists resolves to what is at its place, and to nothing if nothing is there |
| PointerMeaning.MixedStepResolves | priv/verifiers/aps_dod_court.py:585-585 | The condition is needed: the key 0 asked of a list is taken for an index, and the index 0 of an object for a key |
| PointerMeaning.ListRefuses | priv/verifiers/aps_dod_court.py:585-585 | A list refuses a token that is no integer, or none within its length from either end, whatever follows |
| PointerMeaning.PyEqIff | priv/verifiers/aps_dod_court.py:597-611 | Two values are equal exactly if they hold equal scalars and containers of one size at the same places |
| PointerMeaning.MutatedIff | priv/verifiers/aps_dod_court.py:589-621 | A mutant applies exactly if its pointer has a place and the object there is one it accepts (the name or value is listed, the object closed, the property there), and then it exchanges that object |
| PointerMeaning.NoPlaceNoMutant | priv/verifiers/aps_dod_court.py:589-594 | At a place that is not there every mutant is refused |
| PointerMeaning.WalkIsOrdered | priv/verifiers/aps_backlog.py:67-77 | The enums are listed in document order |
| PointerMeaning.DerivedIff | priv/verifiers/aps_backlog.py:80-82 | A schema has mutants exactly if it is an object whose required entry is absent or can be listed |
| PointerMeaning.DerivedAre | priv/verifiers/aps_backlog.py:80-93 | The mutants are, in order, one for each of the first four names listed, one for a closed root, and one for the first value of each non-empty enum among the first two in document order |
| TestClasses.TestcaseClasses | priv/verifiers/aps_dod_court.py:416-428 | The fixpoint is the least set that holds every class with a base named *TestCase or a base in the set |
| TestClasses.OrderDoesNotMatter | priv/verifiers/aps_dod_court.py:416-428 | It does not depend on the order of the declarations |
| TestClasses.FoundIffInherits | priv/verifiers/aps_dod_court.py:416-428 | A name is found exactly if a finite chain of bases leads to a name ending in TestCase; cyclic bases alone find nothing |
| Claims.CycleSearch.Visit | scripts/sjira/wd_claims.py:419-429 | One visit keeps the three-colour invariant: grey claims are the trail, black ones are finished after everything they rest on, every refusal shows a walk that returns; it terminates by the claims not yet visited |
| Claims.CheckCycles | scripts/sjira/wd_claims.py:416-433 | Reports a cycle exactly if the premise graph without self-loops has one, each report shows a real one, and without a report the finishing order is topological |
| Claims.CompleteOrderIsAcyclic | scripts/sjira/wd_claims.py:416-433 | A complete topological order leaves no cycle, so the search misses none |
| Claims.ShownCycleIsCycle | scripts/sjira/wd_claims.py:424-424 | A reported trail contains a closed walk |
| Claims.CheckClaims | scripts/sjira/wd_claims.py:321-386 | No refusal exactly if every claim keeps the rules over its own fields (one sentence; one class with its evidence; quotes found in the supplied sources; public references all valid; premises filed; missing inputs filed; guards) and the premises are free of cycles; and the receipts to validate are exactly those of the classified claims |
| Claims.RulesKeptIff | scripts/sjira/wd_claims.py:321-455 | The refusals of claims and guards are none exactly if those rules hold of every claim |
| Claims.SentenceKeptIff | scripts/sjira/wd_claims.py:330-334 | A sentence is accepted exactly if it is empty, or without line break, outer white space, marker and placeholder, ends in a mark and holds no mark followed by white space |
| Claims.GuardsKeptIff | scripts/sjira/wd_claims.py:436-455 | The guards are kept exactly if a claim whose single sentence matches a missing input is a dependent unknown naming that input, or supplied with exactly the supplied-input kind |
| Claims.AcceptedInference | scripts/sjira/wd_claims.py:368-378 | An accepted inference rests on other claims only, all of them filed and none of them unknown |
| Claims.ChainsAreShort | scripts/sjira/wd_claims.py:321-433 | In an accepted ledger no chain of premises meets a claim twice or is longer than the ledger |
| Claims.AcceptedIsGrounded | scripts/sjira/wd_claims.py:321-433 | Every chain from an inference through inferences never meets an unknown, can be continued from an inference, and ends otherwise in a supplied or publicly observable claim |
| Spans.FindAll | scripts/sjira/prose_spans.py:160-166 | The loop of searches finds the hits that HitsAreAll characterises |
| Spans.HitsAreAll | scripts/sjira/prose_spans.py:160-166 | The hits are all positions of the quote, overlapping ones included, in ascending order |
| Spans.ResolveItems | scripts/sjira/prose_spans.py:172-279 | The refusals of a list in order and its candidates sorted by start, kind, end and name |
| Spans.BoundIsWellBound | scripts/sjira/prose_spans.py:256-277 | A bound candidate quotes the source bytes at its span, is named after digest, span and kind, and carries only clean text, gates and hints |
| Spans.BoundPicks | scripts/sjira/prose_spans.py:242-258 | Its start is the hit that its occurrence counts to, or the only hit |
| Spans.AcceptedIff | scripts/sjira/prose_spans.py:180-277 | A list is refused nothing exactly if every item binds and no two to the same name, and then every item is bound |
| Spans.InOrderIs | scripts/sjira/prose_spans.py:278-278 | Sorting keeps the candidates and, names being distinct, orders them strictly |
| Spans.OrderIsUnique | scripts/sjira/prose_spans.py:278-278 | There is only one strict order of the same candidates: the sort key is total |
| Spans.OrderDoesNotMatter | scripts/sjira/prose_spans.py:172-279 | Permuting the items changes neither whether the list is accepted nor the sorted candidates |
| SpanMeaning.RefusedIffBroken | scripts/sjira/prose_spans.py:172-258 | Each refusal of an item is given exactly if the rule behind it is broken by the item's own fields: unknown or missing keys, kind, boundary class, statement, quote, occurrence, gates, hints, and how often the quote occurs in the source |
| SpanMeaning.BoundDescribes | scripts/sjira/prose_spans.py:241-277 | A bound candidate carries the item's four texts, exactly its gates and hints, sorted and without repeats, stands where its occurrence counts to or at the only place, and is named after digest, span and kind |
| SpanMeaning.DescribedOnce | scripts/sjira/prose_spans.py:241-277 | No two candidates fit that description of one item |
| SpanMeaning.ResolvedMeans | scripts/sjira/prose_spans.py:172-279 | A parsed list is refused nothing exactly if no item breaks a rule and the described candidates have different names, and what is returned is these, by start, then kind, then end, then name |
| SpanMeaning.NameTextIsUnique | scripts/sjira/prose_spans.py:122-123 | The text that is digested for a name tells different spans and kinds apart |
| SpanMeaning.LocalNameIff | scripts/sjira/prose_spans.py:84-84 | The gate pattern takes a letter, then name characters and dots, the last no dot, and overlooks a final newline |
| SpanMeaning.LexLessIff | scripts/sjira/prose_spans.py:274-278 | Texts are compared by the first character they differ in |
| Utf8.DecodeEncoded | scripts/sjira/prose_spans.py:241-241 | A strict decoder gives every encoded text back |
| Utf8.EncodeDecoded | scripts/sjira/prose_spans.py:490-490 | Bytes that decode to a text are its encoding, so no other bytes do |
| Turtle.TurtleString | scripts/sjira/prose_spans.py:126-144 | The quoting loop writes the literal that LiteralRoundTrip reads |
| Turtle.LiteralRoundTrip | scripts/sjira/prose_spans.py:126-144 | Read by the string rules of section 6.4 of RDF 1.1 Turtle, the literal is the string, and what follows it is left |
| Turtle.QuotedIsPlain | scripts/sjira/prose_spans.py:126-144 | A written literal holds no control character, so that it stays on its line |
| SpanRender.Render | scripts/sjira/prose_spans.py:288-340 | The loops write, string by string, the document of headers, prefixes and blocks whose reading is proved below |
| SpanRender.RenderBody | scripts/sjira/prose_spans.py:311-331 | The properties of one candidate, hints in sorted key order |
| SpanReading.TermReads | scripts/sjira/prose_spans.py:282-285 | A term is read back as its name, in either spelling; a dotted name with a final newline is none by the grammar |
| SpanReading.LinesRead | scripts/sjira/prose_spans.py:340-340 | The tokens of the joined text are those of its lines, in order |
| SpanReading.BlocksParse | scripts/sjira/prose_spans.py:309-339 | Blocks are read back as exactly their triples |
| SpanReading.DocumentReads | scripts/sjira/prose_spans.py:288-340 | By the grammar of Turtle the written document reads back as the graph of its candidates, with the namespace as the reader resolves it, or not at all when a gate cannot be read back |
| SpanReading.DottedNewlineIsUnreadable | scripts/sjira/prose_spans.py:84-85 | A gate name that the local-name pattern lets through, a dotted one with a final newline, is no IRI reference by the grammar of Turtle |
| SpanReading.ReturnEndsRemark | scripts/sjira/prose_spans.py:300-301 | A carriage return in a recorded argument ends the remark in the grammar of Turtle, and what follows it is read as tokens |
| SpanCheck.ReadSingles | scripts/sjira/prose_spans.py:450-457 | A property has a value exactly if it occurs once; missing and duplicate ones are refused |
| SpanCheck.CheckSpan | scripts/sjira/prose_spans.py:476-504 | The offset, range, decoding, text and name rules, each refused exactly when broken |
| SpanCheck.CheckSubject | scripts/sjira/prose_spans.py:438-533 | The refusals of a candidate are exactly the rules it breaks |
| SpanCheck.VerifiedIsBound | scripts/sjira/prose_spans.py:476-504 | A verified candidate of any graph, emitted here or not, is named after the digest, its offsets and its kind, and the source bytes at its span are the encoding of its text |
| SpanCheck.VerifyTurtle | scripts/sjira/prose_spans.py:400-543 | Whatever graph a parser makes of a document, or none, the findings are exactly what is refused about it, and the tally holds exactly the verified candidates with their kinds, gates and coverage |
| SpanSound.RefusedIffBreaks | scripts/sjira/prose_spans.py:438-533 | Each of the nineteen refusals is given to a candidate exactly if its triples break the rule, stated over the triples alone |
| SpanSound.VerifiedIffSound | scripts/sjira/prose_spans.py:438-536 | A candidate is verified exactly if it is a proposition and nothing else, has each property once, a listed kind and boundary class, the standing UNKNOWN, a visible one-line statement, a document that names the source, offsets of a span that reads as its text, the name these stand for, only listed predicates, IRIs as gates, visible texts as hints, and numbered nodes with the right class and one visible description |
| SpanSound.PassesIff | scripts/sjira/prose_spans.py:420-542 | A document passes exactly if it is read, has a proposition, every proposition is sound in that sense, and every other subject is a hint node of one |
| SpanEmit.BlockSays | scripts/sjira/prose_spans.py:309-339 | Names being 18 characters long, no hint node shares a subject with another block, so the graph says about a subject what its block says |
| SpanEmit.MainObjects | scripts/sjira/prose_spans.py:309-334 | In the graph a property of a candidate has exactly the values the candidate carries |
| SpanEmit.ChildObjects | scripts/sjira/prose_spans.py:336-339 | The graph says of a hint node its class and its one description, and nothing else |
| SpanEmit.SubjectsAre | scripts/sjira/prose_spans.py:430-432 | The propositions found in the emitted graph are exactly the candidates |
| SpanEmit.NoStray | scripts/sjira/prose_spans.py:539-542 | Every other subject of the emitted graph is a hint node of a candidate |
| SpanEmit.NothingRefused | scripts/sjira/prose_spans.py:438-533 | No rule refuses an emitted candidate |
| TurtleReader.FileBaseResolves | scripts/sjira/prose_spans.py:410-420 | There is a resolver of the kind assumed: one that takes what has no scheme to be a file |
| TurtleReader.SomeAreRelative | scripts/sjira/prose_spans.py:658-658 | The namespace argument may be relative: x and the empty text are references without a scheme |
| SpanEmit.RelativeNamesMove | scripts/sjira/prose_spans.py:501-504 | Under a relative namespace every candidate is refused for its name, because its subject is resolved and the recomputed name is not |
| SpanEmit.EmitPassesIff | scripts/sjira/prose_spans.py:370-386 | With gates that can be read back, the emitted document passes its own check exactly if the namespace is absolute and the prefix takes away nothing of the two vocabularies that is used |
| SpanEmit.ExtractionPassesIff | scripts/sjira/prose_spans.py:343-386 | The same from any accepted extraction on, through binding, sorting and rendering |
| SpanEmit.TallyIsEmitted | scripts/sjira/prose_spans.py:534-543 | The check tallies for each candidate the kind and gates that were emitted |
| SpanGraph.GraphIsSaid | scripts/sjira/prose_spans.py:288-340 | The graph that a passing document is read back as holds, for each candidate, exactly the triples its fields call for: class, ten properties, gates, text hints and links, and the class and description of each linked node; and no other triple |

## Left out

- ExprEval.ResolveIsEval: inside a larger expression literals have balanced brackets and no equality sign outside them, a bare name is no keyword and the operand of `!` is no unparenthesised equality, because the evaluator reads such text differently; getters and exceptions of JavaScript lookups are not modelled, and values, lookup and loose equality are arbitrary functions.
- Glob.GlobMeaning: states one direction of the condition only; some patterns with `**` inside a component happen to agree with a component matcher, and no matcher of components defines what they should mean. Expressions are syntax trees; the escaping of literal characters and the parsing of the expression text are not modelled.
- Pointer.ApplyMutant: works on JSON values, so the tree is not edited in place and aliasing does not show; all exceptions are one refusal, floats are exact reals, and digits outside ASCII are not read as list indices.
- Claims.CheckCycles: Python's recursion limit on long chains of premises is not modelled.
- Claims.CheckClaims: claims are filed under the number of their identifier, so an identifier with the final newline that its pattern overlooks is not told apart from the one without; what the patterns for markers, placeholders, public references and guards match, and what reading, digesting and standing of a file give, are functions of a given world; the details of a refusal message are left out.
- Spans.ResolveItems: refusals carry the item and the code, not the message; strings hold no lone surrogates.
- SpanRender.Render: the header's remarks are fixed text; the digest function is arbitrary, of at least sixteen hexadecimal digits where names matter.
- SpanCheck.VerifyTurtle: findings are a set without messages; parsing is its argument, and an integer is what the lexical form of xsd:integer says.
- SpanReading.DocumentReads: the reader covers prefixed names in ASCII, IRI references without escapes, strings, integers and predicate lists; it is the grammar of Turtle and not any one parser, and a parser may read more.
- SpanEmit.EmitPassesIff: the prefix is a name and the namespace an IRI reference in ASCII Turtle, and the arguments hold no line break (`SpanReading.ReturnEndsRemark` shows what a carriage return does, which the argument checks let through); the reader leaves an IRI with a scheme as it is and gives any other reference one; the argument checks themselves are not modelled.
- DeckStage.Deck.EmitDcOp: skip marks that are toggled through the host share the lock and the acknowledgement and are not modelled; nor are focus, overlay, menus, the stream notice and persistence.
- DeckStage.Deck.MoveSlide: the slide to move exists where a move is made; the code does not test for it and its callers pass one.
- Rail.Rail.RenderRail: the thumbs it starts from are in the rail, one for each slide, as every earlier rendering leaves them; a thumb is its slide, number, position and marks; cloning, scaling, lazy rendering and the enabling of the rail are not modelled.
- Lifecycle.CallsArePairedIff: React is the steps it takes with one wrapper; a property's value is what `===` tells apart; exceptions thrown by the lifecycle methods themselves, and the streaming flags, are not modelled.
- Strings are sequences of Unicode scalar values, while the browser components count UTF-16 units.
- Proposal rendering and scanning of the claims ledger: a sentence that ends in doubled punctuation splits differently once it is marked, so there is no unconditional round trip.
- The other gates of the court, receipts, git, subprocesses and file reading: orchestration around the parts above.
- Module loading, compilation and script evaluation in the component runtime, and layout, drag visuals and printing in the deck.
