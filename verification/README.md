# Verified models of the job-search assistant's core

This project models the parts of the assistant whose behaviour is hardest to see from one function body,
and proves what they promise. Check it with `dafny verify dfyconfig.toml` (Dafny 4.11).

* **Leakage-safe folds.** `VacancyGroups` has the union-find with path halving as a class over a parent
  dictionary and proves that its groups are the connected components of "same company or judged pair",
  each named by its least member. `DatasetFolds` proves that no component straddles folds and that a
  frozen evaluation set never trains, whatever is regrouped later. `AnnotationSplits` composes both into
  the life of a named split: over any history of views and a freeze, evaluation data never leaks.
* **Search-recipe learner.** `HtmlTree` is the HTML tree builder (a class that mutates an arena of
  nodes), with the round trip through printing, and `DocumentOrder` says in which order its pages are
  walked. `PageTree`, `RecipeSelectors`, `VacancyCards` and `RecipeLearning` cover walks, the selector
  matcher, climbing to cards, selector disambiguation and every way `learn_selectors` can end;
  `RecipeLaws` says what the learned pieces require of a node, and that cards with a class of their own
  are learned as such. `PercentEncoding`, `PercentDecoding`, `UrlTemplate`, `UrlLocation` and
  `UrlBraces` are URL encoding, template inference and its inverse, without a location, with one, and
  with one that is spelled with braces, and the condition under which the original URL comes back;
  `UrlInference` says when a template is learned and from which spelling, `UrlExamples` has inputs on
  either side of the condition.
* **Discovery stream.** `DiscoveryStream` is the protocol as interleaved steps of sources, enrichment
  tasks and the consumer; `StreamProofs` proves its invariant over every interleaving, what a completed
  stream delivered, and that no interleaving gets stuck before completion. `StreamSteps` tells the
  outcome of a run by its steps alone, without states, and `StreamLives` the order of those steps for
  one vacancy. `StreamProgress` bounds the steps of every interleaving that discovers nothing more, so a
  finite search completes its stream.
* **Experience duration.** `Duration` (with `Rounding` and `Sorting`) merges intervals and proves that
  the result is the number of days in their union, hence monotone.
* **Application lifecycle and emails.** `ApplicationLifecycle` and `EmailStatus`: runs of any length
  under human, system and email actors.
* **Claims and gaps.** `ClaimAggregation` turns the branch cascades into a capped maximum of ranks;
  `GapAnalysis` conserves claims from requirement tasks to gap counters.
* **Statistics and queue.** `WilsonInterval` is the score interval over the reals; `Annotation` has pair
  identity and the diversity-limited queue, whose greedy loop is proved optimal.
* **Durable work and sessions.** `MatchingJobs` is idempotent scheduling, call by call, over all its
  tables. `MatchingRaces` splits the same call at its commits and lets workers and other calls act in
  between; it says exactly which promises survive and when the others fail. `Backfill` is cursor
  pagination, `BrowserSessions` a file-plus-row update with failed commits and crashes between any two
  steps.

`Wrappers`, `TextOrder`, `PyText` and `Sorting` hold the Python notions the others share: `None`,
exceptions, ordered dictionaries, string order, `sorted`, `strip` and `split`.

Inputs of the models, left arbitrary: `normalize_company`, the seeded hash position of a group, the
learner's regular expressions, `resolve_hit_url`, URL shapes, the length of a node's text, the bytes of
a character (of UTF-8 only "at least one, and 0x20 for a space" is used, and for decoding that letters,
digits and `_.-~` are ASCII) and which characters IGNORECASE takes for each other (not braces, spaces,
percent signs or digits), the root that `math.sqrt` returns, clocks and reference dates, content-version
hashes, fresh file names and row ids, scores, and the outcome of every model call, commit and file
write.

Where code and comments disagree, the model follows the code:

* The lifecycle header says nothing moves backwards once submitted. Two legal steps do go back:
  `ApplicationLifecycle.SubmittedCanReturnToReview`. `LeavesIff` and `NoSingleStepBack` say exactly
  which attempts do, `StaysSubmittedIff` when a whole run does not.
* A comment on claim aggregation says OR groups contribute their maximum strength. The code takes the
  weakest claim and the mean over all claims. `ClaimAggregation.AggregateStrongAndWeakAlternative` is an
  input that shows it; `StrengthIsMaximumIff` says that the maximum comes out exactly when all claims
  are equally strong.
* A learned template is there to give the results URL back for the same search. A location that occurs
  in "query" breaks the placeholder put for the query: `UrlLocation.LocationQBreaksQuery`, and
  `UrlBraces.RoundTripForAnyLocation` for the condition.
* The scheduler says that a second click cannot delete a claim that a worker is executing. It reads the
  task long before it deletes it: `MatchingRaces.ActiveRowDeletedIff` says exactly when an active task
  is deleted, `RunningRowCanBeDeleted` that this happens. In the same way a priority can fall, a failed
  task be returned, and a forced call leave its task without the refresh mark or marked too late; each
  has its exact condition and a run that reaches it.
* With a limit below one, the diversified branch of `limit_bucket_dominance` would still let one item
  through, where the plain slice would not. The queue endpoint admits no such limit
  (app/api/annotation.py:228).
* More than 100 gaps make the gap analysis raise, because the result schema refuses them:
  `GapAnalysis.AnalyzeGaps`.

## Model

| member | source | states |
|---|---|---|
| VacancyGroups.UnionFind.constructor | app/domain/annotation_dataset.py:58 | every vacancy starts as its own root in a forest that never points upwards in the id order |
| VacancyGroups.UnionFind.Find | app/domain/annotation_dataset.py:60-64 | path halving terminates, returns the root, and moves no root of any vacancy |
| VacancyGroups.UnionFind.Union | app/domain/annotation_dataset.py:66-69 | merges exactly the two trees below the smaller root; every other root stays |
| VacancyGroups.RootIsLeastAncestor | app/domain/annotation_dataset.py:60-69 | following parents ends at a self-parented vacancy that is least among all with that root |
| VacancyGroups.HalvingKeepsRoots | app/domain/annotation_dataset.py:61-63 | replacing a parent by the grandparent keeps the forest and the root of every vacancy |
| VacancyGroups.LinkingJoins | app/domain/annotation_dataset.py:66-69 | linking the larger of two roots below the smaller one joins their trees and no others |
| VacancyGroups.JoiningAddsOneLink | app/domain/annotation_dataset.py:66-69 | if roots were the components of a relation, after a union they are those of the relation plus that link |
| VacancyGroups.UnionKeepsComponents | app/domain/annotation_dataset.py:66-69 | the same, stated for the parent dictionary that `union` works on |
| VacancyGroups.MergeCompanies | app/domain/annotation_dataset.py:71-79 | after the company loop, roots are the components of links that stay inside one company and connect each member to its first |
| VacancyGroups.FirstStaysLeast | app/domain/annotation_dataset.py:71-79 | `by_company` keeps the least vacancy of each company, because ids come in order |
| VacancyGroups.MergeCompany | app/domain/annotation_dataset.py:72-79 | one vacancy: an unknown company glues nothing, a known one links to its first vacancy, a new one is recorded |
| VacancyGroups.MergeJudgedPairs | app/domain/annotation_dataset.py:80-82 | adds exactly the judged pairs with both ends known |
| VacancyGroups.ReadGroups | app/domain/annotation_dataset.py:83 | the result maps each vacancy to its root in the given order, although reading it rewrites parents |
| VacancyGroups.RootsNameLeastMembers | app/domain/annotation_dataset.py:57 | a group id is the least member id |
| VacancyGroups.LinksSpanRelation | app/domain/annotation_dataset.py:71-82 | the few links that were united connect the same vacancies as the full relation "same company or judged" |
| VacancyGroups.GroupVacancies | app/domain/annotation_dataset.py:54-83 | two vacancies share a group iff connected by same non-empty normalised company or judged pairs; each group is named by its least member |
| VacancyGroups.GroupingIgnoresOrder | app/domain/annotation_dataset.py:57 | reordering, repeating or flipping pairs gives the same groups |
| DatasetFolds.AssignFolds | app/domain/annotation_dataset.py:97-118 | fails iff some grouped vacancy is frozen outside validation/test; otherwise folds are the order-free assignment: test if any member is frozen test, else validation, else the hash |
| DatasetFolds.PinFolds | app/domain/annotation_dataset.py:106-114 | each pinned fold is some member's frozen fold, and test wins inside a group, whatever the iteration order |
| DatasetFolds.PinnedFold | app/domain/annotation_dataset.py:113-117 | the pinned-or-hashed fold equals the order-free definition |
| DatasetFolds.NothingStraddlesFolds | app/domain/annotation_dataset.py:54-118 | vacancies connected by company or judgement get one fold |
| DatasetFolds.FreezeRecordsEvaluation | app/domain/annotation_dataset.py:121-123 | a freeze records exactly the vacancies that do not train, each with its fold |
| DatasetFolds.FrozenEvaluationNeverTrains | app/domain/annotation_dataset.py:97-123 | after any regrouping nothing that travels with a frozen vacancy trains, frozen test stays test, and validation holds iff no frozen test vacancy is in the group |
| DatasetFolds.RefreezingIsIdempotent | app/domain/annotation_dataset.py:97-123 | re-assigning an unchanged grouping with its own frozen entries gives the same folds |
| DatasetFolds.FoldsFollowShares | app/domain/annotation_dataset.py:86-94 | groups that the hash spreads evenly are divided between the folds in proportion to the shares, to less than one group each |
| DatasetFolds.LargerTrainingShare | app/domain/annotation_dataset.py:86-94 | moving the border between training and validation moves no group in or out of test, and none out of a growing training part |
| AnnotationSplits.AnnotationSplit.constructor | app/storage/tables.py:995-1013 | a new split records no evaluation vacancy and is not frozen |
| AnnotationSplits.AnnotationSplit.BuildView | app/services/annotation_dataset.py:94-109 | a view is leak-free and keeps everything that travels with a recorded vacancy out of training; fold assignment cannot fail on a split's row |
| AnnotationSplits.AnnotationSplit.Freeze | app/services/annotation_dataset.py:112-133 | records exactly the evaluation part of the current view, once; the two refusals change nothing |
| AnnotationSplits.ViewIsUnique | app/services/annotation_dataset.py:94-109 | the row and the labels of the moment determine the folds |
| AnnotationSplits.FreezingIsFinal | app/storage/tables.py:996-999 | over any history the row never changes after the freeze |
| AnnotationSplits.EvaluationNeverLeaks | app/services/annotation_dataset.py:112-117 | over any history no view after the freeze trains on a vacancy frozen as evaluation or on anything since connected to one |
| AnnotationSplits.FreezingKeepsFolds | app/services/annotation_dataset.py:112-133 | viewing the same labels after the freeze gives the frozen folds |
| HtmlTree.TreeBuilder.constructor | app/browser/recipe_learning.py:86-90 | starts with the bare document root and no skipped element |
| HtmlTree.TreeBuilder.HandleStartTag | app/browser/recipe_learning.py:92-104 | the new builder state is the specified step; the page stays a well-formed tree |
| HtmlTree.TreeBuilder.HandleEndTag | app/browser/recipe_learning.py:106-115 | closes the closest open element with the tag, never the root; unmatched tags change nothing |
| HtmlTree.TreeBuilder.HandleData | app/browser/recipe_learning.py:117-119 | appends non-blank text outside skipped elements to the current node only |
| HtmlTree.TreeBuilder.Feed | app/browser/recipe_learning.py:122-126 | feeding events one by one is the run of the specification |
| HtmlTree.StepKeepsTree | app/browser/recipe_learning.py:85-119 | every event keeps the root, acyclic parent links, and `children` equal to the nodes of `content`; no node is ever lost |
| HtmlTree.FeedOne | app/browser/recipe_learning.py:92-119 | feeding the events of one printable item appends that item at the cursor and leaves everything else alone |
| HtmlTree.FeedAll | app/browser/recipe_learning.py:92-119 | the same for a sequence of items |
| HtmlTree.ParseUndoesPrint | app/browser/recipe_learning.py:85-126 | parsing the events of any printable forest rebuilds that forest below the root |
| HtmlTree.ParsedTreesAreStable | app/browser/recipe_learning.py:85-126 | whatever the events, even unbalanced, printing the parsed tree and parsing again gives the same tree |
| HtmlTree.BalancedOnlyCounts | app/browser/recipe_learning.py:92-119 | inside a skipped element balanced events change only the depth, and restore it |
| HtmlTree.SkippedSubtreeIsNoOp | app/browser/recipe_learning.py:93-111 | a script, style, noscript or template element leaves no trace in the builder |
| PageTree.ClosestIff | app/browser/recipe_learning.py:111-115 | the element closed is the one with the tag at or above the current node, other than the root, below which no other element up to there has it |
| PageTree.EndTagCloses | app/browser/recipe_learning.py:106-115 | an end tag outside skipped elements closes that element, however many open ones it closes on the way: its parent becomes current, and the page is as before |
| PageTree.StrayEndTagIsIgnored | app/browser/recipe_learning.py:106-115 | an end tag without such an element changes nothing |
| PageTree.WalkIsSubtree | app/browser/recipe_learning.py:70-74 | a walk visits exactly the node and its descendants |
| PageTree.WalkVisitsOnce | app/browser/recipe_learning.py:70-74 | no node is visited twice |
| PageTree.DisjointUnlessNested | app/browser/recipe_learning.py:70-82 | two subtrees share a node iff one root is an ancestor of the other |
| DocumentOrder.WalksFollowTheDocument | app/browser/recipe_learning.py:70-126 | on every page the builder makes, whatever the events, a walk visits an element and what it holds in the order of the start tags, numbered without a gap |
| DocumentOrder.AttachedComesLast | app/browser/recipe_learning.py:92-104 | a new node comes last in the walk of every open element and in no other walk |
| RecipeSelectors.SelectorForMatchesItsNode | app/browser/recipe_learning.py:153-186 | the selector made from a node matches that node |
| RecipeSelectors.SelectorForMatchesIff | app/browser/recipe_learning.py:153-186 | which nodes the selector of a node matches: same tag, and its first three stable classes if it has one, else its first usable stable attribute, with the value, if it has one |
| RecipeSelectors.StableClassesAre | app/browser/recipe_learning.py:178-181 | the classes used are the stable ones of the node, no more than three, and the earliest |
| PyText.SplitTakes | app/browser/recipe_learning.py:62-64 | a class list is split into the maximal runs without white space: a word reaches up to the next white space |
| PyText.SplitSkips | app/browser/recipe_learning.py:62-64 | and white space before it is skipped |
| RecipeSelectors.StableAttribute | app/browser/recipe_learning.py:182-185 | a chosen attribute is one the node has, with its non-empty value |
| RecipeSelectors.WalkCountsMatches | app/browser/recipe_learning.py:441 | filtering the walk from the root counts exactly the nodes of the page that the selector matches |
| VacancyCards.CardFor | app/browser/recipe_learning.py:284-296 | the card is the highest node reached from the anchor through non-containers with exactly one vacancy URL below |
| VacancyCards.CardIsUnique | app/browser/recipe_learning.py:284-296 | that characterisation leaves one card per anchor |
| VacancyCards.CardHoldsOwnLink | app/browser/recipe_learning.py:288-296 | a card above the anchor holds no other vacancy link |
| VacancyCards.CardsAreDistinct | app/browser/recipe_learning.py:284-296 | two anchors never share a card, nested or not |
| VacancyCards.CardHoldsExactlyOneLink | app/browser/recipe_learning.py:284-296 | with no anchor inside another, each card holds exactly its own vacancy link |
| VacancyCards.CardsDisjointIffNoneNested | app/browser/recipe_learning.py:284-296 | all cards are pairwise disjoint iff no grouped anchor lies inside another |
| RecipeLearning.CollectCandidates | app/browser/recipe_learning.py:257-263 | exactly the links outside page chrome, on allowed hosts, that leave the results page |
| RecipeLearning.BestShape | app/browser/recipe_learning.py:264-269 | no URL shape has more different URLs than the chosen one |
| RecipeLearning.OnePerUrl | app/browser/recipe_learning.py:275-280 | one anchor per URL, all URLs covered, and it has the longest text of the anchors with that URL |
| RecipeLearning.GroupLinks | app/browser/recipe_learning.py:251-281 | succeeds iff some shape has three different URLs; the group is one anchor, the longest, per URL of a largest shape |
| RecipeLearning.MostCommon | app/browser/recipe_learning.py:436-437 | a selector of the cards that no other outnumbers, and of those the first |
| RecipeLearning.LongestCommonPrefix | app/browser/recipe_learning.py:416-419 | the common prefix of the links begins every link, and every text that does so begins it |
| RecipeLearning.ContentDisambiguated | app/browser/recipe_learning.py:401-426 | succeeds iff requiring the shared link prefix inside the card matches all cards and at most twice as many nodes; returns that selector and its exact match count |
| RecipeLearning.DisambiguateCardSelector | app/browser/recipe_learning.py:373-398 | returns the selector of the lowest of four ancestor levels that all cards share and that narrows the page enough, or none when all four fail |
| RecipeLearning.TryLevel | app/browser/recipe_learning.py:387-397 | one level: found iff one selector describes all cards' ancestors there and chaining it narrows the page enough |
| RecipeLearning.SharedAncestorMatchesAll | app/browser/recipe_learning.py:364-370 | behind a shared ancestor selector the card selector still matches every card |
| RecipeLearning.LearnLinkSelector | app/browser/recipe_learning.py:306-318 | in every card the first match is the card's own anchor; the card itself is the link iff every card is its anchor; fails iff no candidate achieves that; earlier candidates are preferred |
| RecipeLearning.FindCards | app/browser/recipe_learning.py:435 | each grouped anchor with its card, in order |
| RecipeLearning.CommonCards | app/browser/recipe_learning.py:435-440 | the cards share a selector, and no selector describes the cards of more vacancy links |
| RecipeLearning.ChooseCardSelector | app/browser/recipe_learning.py:441-449 | plain selector if specific, else by content, else by ancestor; it matches all cards and at most twice as many nodes; fails only if all three do |
| RecipeLearning.CardsAreMatchedNodes | app/browser/recipe_learning.py:435-449 | a selector that matches all cards matches at least as many nodes as there are cards |
| RecipeLearning.LearnSelectors | app/browser/recipe_learning.py:429-456 | every outcome: no group iff no shape has three URLs; else the largest group, a largest set of cards, and either a specific card selector with a link selector that picks each card's own anchor, or the named error with its exact cause |
| RecipeLaws.HasLinkIff | app/browser/recipe_learning.py:152-165 | `:has(a[href*=...])` holds iff a strict descendant is a link whose target contains the text |
| RecipeLaws.HrefPartIff | app/browser/recipe_learning.py:152-165 | `[href*=...]` asks for the text inside the node's own link target |
| RecipeLaws.SomeAncestorIff | app/browser/recipe_learning.py:364-370 | a chained selector asks for some strict ancestor that the first part matches |
| RecipeLaws.ChainedMatchIff | app/browser/recipe_learning.py:364-370 | a chained selector matches what its second part matches below some match of the first |
| RecipeLaws.UnderChromeIff | app/browser/recipe_learning.py:76-82 | a link is page chrome iff a strict ancestor is one of the chrome elements |
| RecipeLaws.SharedPrefixIsRequired | app/browser/recipe_learning.py:401-426 | links that begin alike for more than eight characters make the longest shared beginning the required one, unless it holds a quote |
| RecipeLaws.GenericPrefixIsRequired | app/browser/recipe_learning.py:401-426 | otherwise it is the generic path prefix of the first link, if usable |
| RecipeLaws.PlainLinkSuffices | app/browser/recipe_learning.py:306-318 | no card fails for its link when the first anchor of every card is its vacancy link |
| RecipeLaws.PicksEachLinkIff | app/browser/recipe_learning.py:306-318 | a link selector picks the links iff in each card the walk meets the own anchor before any other match |
| RecipeLaws.ClassesComeFirst | app/browser/recipe_learning.py:306-318 | the link selector by classes wins if it picks every link, then the one by path prefix, then the bare link |
| RecipeLaws.ClassedCardsAreLearned | app/browser/recipe_learning.py:429-456 | if the cards carry an early stable class that no other node has, the card selector is theirs, plain, and matches exactly the cards |
| PercentEncoding.QuotedHasNoBraces | app/domain/search_recipe.py:232-238 | an encoded text has no brace, so it never spells a placeholder |
| PercentDecoding.DecodingUndoesEncoding | app/domain/search_recipe.py:232-238 | decoding either encoding of any text gives back its bytes |
| PercentEncoding.PercentEscapesBraces | app/domain/search_recipe.py:232-238 | so percent encoding meets what the round trip without a location asks of it |
| PercentEncoding.PlainAgainstQuoted | app/browser/recipe_learning.py:198-202 | a text found as it is, in any case, never ends like its encoding, unless it is spelled like it: replacing it cannot be undone by chance |
| PercentEncoding.QuotedAgainstPlus | app/browser/recipe_learning.py:198-202 | nor does a spelling with `%20` end like the one with `+` |
| UrlTemplate.Variant | app/browser/recipe_learning.py:198-207 | the spelling found occurs in the URL and is not empty, and the placeholder fits it |
| UrlTemplate.ReplaceAfterSub | app/domain/search_recipe.py:232-238 | replacing the placeholder undoes substituting it: the result is the substitution of the replacement text |
| UrlTemplate.ReplaceOtherAfterSub | app/domain/search_recipe.py:232-238 | replacing one placeholder leaves the others alone |
| UrlTemplate.SubIsIdentityIff | app/browser/recipe_learning.py:200-202 | substitution gives the value back iff every case-insensitive hit is spelled like the substitute |
| UrlTemplate.BuildAfterInfer | app/browser/recipe_learning.py:192-220 | building from the inferred template renders the query at each hit and changes nothing else |
| UrlTemplate.RoundTripIff | app/browser/recipe_learning.py:192-220 | without a location the original URL comes back iff the scheme and host are spelled as parsed and every hit is spelled like the rendered query |
| UrlTemplate.EncodedQueryRoundTrips | app/browser/recipe_learning.py:192-220 | the promised case: a URL with the encoded query in its own case round-trips |
| UrlInference.NoTemplateIff | app/browser/recipe_learning.py:192-213 | no template is learned iff the stripped query is empty or none of its four non-empty spellings occurs behind the host |
| PyText.StripIs | app/browser/recipe_learning.py:208-215 | stripping a query or location takes off white space at both ends only, and all of it |
| UrlInference.SpellingIsRendered | app/browser/recipe_learning.py:192-220 | without a location the first spelling found, with `+`, with `%20`, as it is, or as a slug, is what the built URL renders at each of its hits, as a slug iff it was one |
| UrlInference.LocationIsReplaced | app/browser/recipe_learning.py:214-220 | a location found in what the query left is replaced at each hit of its first spelling found |
| UrlInference.LocationIsIgnored | app/browser/recipe_learning.py:214-220 | a blank location, or one that is not found, leaves the template of the query alone |
| UrlInference.SlugStep | app/domain/search_recipe.py:37-39 | in a slug each run of white space between two words is one hyphen and the words stay |
| UrlLocation.ReplaceInHoles | app/domain/search_recipe.py:232-238 | one replacement works on each hole by itself and touches no other text |
| UrlLocation.MendedIff | app/domain/search_recipe.py:232-238 | the rendered location mends the placeholder iff that is "{query-slug}" and each hit in it is spelled as rendered |
| UrlLocation.HolesComparable | app/browser/recipe_learning.py:192-220 | whatever spelling was found, the text replaced at a hole equals its rendering or ends differently, so errors cannot cancel |
| UrlBraces.SubIsSubSpans | app/browser/recipe_learning.py:198-219 | replacing a spelling that opens a brace first and closes one last is replacing it in the literal text and over whole placeholders |
| UrlBraces.CutIsLost | app/browser/recipe_learning.py:192-220 | a spelling with a brace that does not, cuts a placeholder, and the URL never comes back |
| UrlBraces.RoundTripForAnyLocation | app/browser/recipe_learning.py:192-220 | for a location found by a spelling without braces the original URL comes back iff the host is spelled as parsed, the query placeholder was left whole or mended, and both texts are spelled everywhere as rendered; for one with braces never if it cuts a placeholder, else whenever all is spelled so, and only then unless rendering lengthens one text and shortens another |
| UrlBraces.RoundTripWithoutBraces | app/browser/recipe_learning.py:192-220 | for every location without braces the exact condition |
| UrlLocation.LocationInQueryPlaceholder | app/browser/recipe_learning.py:198-219 | a location whose encoding occurs, in any case, in "{query}" never gives back a URL whose query stands in standard encoding |
| UrlLocation.LocationInSlugPlaceholder | app/browser/recipe_learning.py:198-219 | one that occurs in "{query-slug}" gives it back iff it occurs there in its own case, the host is spelled as parsed and both texts are spelled as rendered |
| UrlLocation.LocationQBreaksQuery | app/browser/recipe_learning.py:192-220 | an input that fails: any plain query with the location "q" |
| UrlExamples.UgComesBack | app/browser/recipe_learning.py:192-220 | two plain words without a "u" that stand in the path as a slug, and the location "ug": it hits the placeholder and mends it, and the URL comes back |
| UrlExamples.UpperUgIsLost | app/browser/recipe_learning.py:192-220 | with the location "UG" it does not, under ASCII case folding |
| UrlExamples.PlaceholderComesBack | app/browser/recipe_learning.py:192-220 | a location spelled with braces that comes back: "{query}", for the query "{query}" |
| StreamProofs.StepKeepsInv | app/api/main.py:3267-3728 | every step of every task keeps source logs, children, semaphore, profile lock and consumer bookkeeping consistent |
| StreamProofs.RunsKeepInv | app/api/main.py:3267-3728 | so does every interleaving |
| StreamProofs.MarkerFollowsEverything | app/api/main.py:3691-3698 | the internal marker of a source follows every event it or its enrichments put |
| StreamProofs.MarkerIsLast | app/api/main.py:3698-3708 | once the consumer took a source's marker, nothing of that source is in the queue |
| StreamProofs.AllMarkedMeansDrained | app/api/main.py:3704-3710 | when all markers were counted, all sources finished and the queue is empty |
| StreamProofs.CompletedStream | app/api/main.py:3700-3718 | a completed stream delivered every event put, in order, then exactly one `complete` line with the number of sources; no task is left |
| StreamProofs.NoEarlyComplete | app/api/main.py:3710-3718 | a `complete` line is the last line, and only of a completed stream |
| StreamProofs.OneSourceCompleteEach | app/api/main.py:3691-3692 | each source's completion is delivered exactly once |
| StreamProofs.RankedIsNonIncreasing | app/api/main.py:3668-3678 | the sort is by non-increasing score and loses nothing |
| StreamProofs.RankedKeepsTies | app/api/main.py:3668-3678 | results with equal scores stay in order of discovery |
| StreamProofs.DirectModeIsRankedAndLimited | app/api/main.py:3658-3681 | direct mode puts at most `limit` vacancies per source, in non-increasing score |
| StreamProofs.DirectModePublishesTheBest | app/api/main.py:3658-3681 | a completed source without an error published exactly the first `limit` of its ranked results |
| StreamSteps.RunFollows | app/api/main.py:3490-3728 | at every moment of a run the children are what its steps say: who discovered them, and the score of the poll that ended each |
| StreamSteps.DirectModeRanksThePolls | app/api/main.py:3658-3681 | over a run given by its steps, a completed source that did not fail published the first `limit` of the applications it discovered, ranked by the scores of their own polls, 0 where a poll was out of time |
| StreamSteps.CompletedStreamIsTold | app/api/main.py:3490-3728 | without direct mode the response is, in order, what the steps announce: discoveries, starts, materials, matchings in time or not, errors, completions, and the final line |
| StreamLives.LivesAreOrderly | app/api/main.py:3345-3560 | in every run the enrichment of each vacancy goes through its stages in order: in direct mode the profile first, unless skipped, then matching, materials and the poll; it has ended iff it went through all of them |
| StreamLives.ReleasedIsIngested | app/api/main.py:3307-3312 | whoever has released the profile lock has an ingestion task for its CV |
| StreamLives.StartsWereCreated | app/api/main.py:3307-3311 | every ingestion task was made by an enrichment of that CV |
| StreamLives.OnlyDirectModeIngests | app/api/main.py:3405-3407 | without direct mode no profile is ingested |
| StreamLives.GatheringFailsForItsOwn | app/api/main.py:3658-3698 | a source that only waits for its enrichments fails only if one of its own failed |
| StreamProofs.SharedWorkIsBounded | app/api/main.py:3281-3312 | profile ingestion starts at most once per CV, and no more enrichments run than the semaphore admits |
| StreamProofs.NeverStuck | app/api/main.py:3267-3728 | until completion some task or the consumer can proceed beyond discovering more vacancies |
| StreamProgress.StepUsesWork | app/api/main.py:3267-3728 | every step of a task or the consumer, except discovering one more vacancy, uses up work |
| StreamProgress.StreamsEnd | app/api/main.py:3267-3728 | no interleaving without new vacancies has more steps than the work left |
| StreamProgress.FinishedRunIsComplete | app/api/main.py:3267-3728 | whichever steps are taken, a run that discovers nothing more and cannot go on has completed the stream |
| Duration.MergeIntervals | app/matching/duration.py:40-58 | the merged intervals cover exactly the same days, in order and strictly separated |
| Duration.TotalCountsDays | app/matching/duration.py:61-64 | the summed length of separated intervals is the number of days covered |
| Duration.CollectIntervals | app/matching/duration.py:102-119 | keeps exactly the intervals that do not end before they start, ongoing ones ending at the reference date |
| Duration.DayCountsIff | app/matching/duration.py:102-119 | a day counts iff it lies in some interval, from its start up to its end, or up to the reference date if ongoing |
| Duration.ConfidenceGrades | app/matching/duration.py:134-142 | the confidence tells the three branches apart: 1, from 0.65 to 0.8, from 0.3 to 0.4 |
| Duration.ConfidenceInterpolates | app/matching/duration.py:134-142 | up to half the years the confidence goes evenly from 0.3 to 0.4, from there to all of them from 0.65 to 0.8 |
| Duration.VerdictGrades | app/matching/duration.py:67-151 | the reported confidence, rounding included, tells matched, no evidence, and more or less than half the years apart |
| Duration.EvaluateDuration | app/matching/duration.py:67-151 | the loops compute the verdict defined on the number of covered days, error cases included |
| Duration.YearsOfDays | app/matching/duration.py:61-64 | years are days over 365.25 to the nearest hundredth: no hundredth is nearer, and 1461 days are four years |
| Duration.MatchedByDays | app/matching/duration.py:67-151 | two days more than the required years hold are always enough, two days fewer never |
| Duration.ConfidenceMonotone | app/matching/duration.py:134-142 | more years never lower the confidence, across all three branches |
| Duration.MoreExperienceNeverHurts | app/matching/duration.py:67-151 | adding intervals, in any order and overlap, never lowers years, status or confidence |
| Rounding.RoundMonotone | app/matching/duration.py:64 | rounding keeps order |
| Rounding.NearestIsNearest | app/matching/duration.py:64 | no whole number is nearer, and half way between two the even one is taken |
| Rounding.RoundIsNearest | app/matching/duration.py:64 | no number with so many digits is nearer |
| ApplicationLifecycle.AllowedTargetsAreChanges | app/domain/application_lifecycle.py:99-124 | the listed targets are the permitted changes, except those only an email may make |
| ApplicationLifecycle.TerminalStatusesAbsorb | app/domain/application_lifecycle.py:36-116 | automation never leaves a terminal status, and nobody leaves withdrawn, in runs of any length |
| ApplicationLifecycle.OnlyTerminalStatusesAbsorb | app/domain/application_status.py:22-29 | the terminal statuses are exactly those automation cannot leave |
| ApplicationLifecycle.LeavesIff | app/domain/application_lifecycle.py:30-116 | an attempt takes an application out of the post-submission statuses iff it asks for needs_review (after an employer's rejection only as a person) or is the email from submitted to approved |
| ApplicationLifecycle.StaysSubmittedIff | app/domain/application_lifecycle.py:8-10 | a run of any length stays post-submission iff no such attempt is made |
| ApplicationLifecycle.LeavingSubmission | app/domain/application_lifecycle.py:30-116 | a run that ends outside the post-submission statuses made an attempt that leaves |
| ApplicationLifecycle.SubmittedCanReturnToReview | app/domain/application_lifecycle.py:8-10 | two legal steps lead from submitted back to awaiting_review, in two ways |
| ApplicationLifecycle.NoSingleStepBack | app/domain/application_lifecycle.py:99-116 | a transition from a post-submission status to any other is accepted iff it is such an attempt |
| ApplicationLifecycle.FewChangesAfterSubmission | app/domain/application_lifecycle.py:36-116 | without emails and needs_review a submitted application changes at most three times and only forward |
| ApplicationLifecycle.ForwardChangesIff | app/domain/application_lifecycle.py:36-116 | after submission a change within the post-submission statuses is accepted iff it goes forward, whoever makes it |
| ApplicationLifecycle.PreSubmissionChangesIff | app/domain/application_lifecycle.py:36-116 | from a pre-submission status every other one is accepted, except that drafts come from saved and needs_review from awaiting_review only, approving takes a person or an email, and taking an approval back takes a person |
| ApplicationLifecycle.RestoringIff | app/domain/application_lifecycle.py:36-74 | a rejected or skipped entry changes only by a person, to saved or awaiting_review |
| ApplicationLifecycle.RefusedIff | app/domain/application_lifecycle.py:99-116 | an actor is refused as automation iff a person would be let through, and as not allowed iff nobody of the two would be |
| ApplicationLifecycle.ApprovalIsAnAct | app/domain/application_lifecycle.py:65-116 | over runs of any length an application becomes approved only by an attempt of a person or an email |
| ApplicationLifecycle.RunsCompose | app/domain/application_lifecycle.py:99-116 | a run cut anywhere is its first part followed by its second from where that ended, and changes add up |
| EmailStatus.ApplyIsMaximum | app/domain/application_email.py:40-56 | one email raises the status to its target's rank or changes nothing |
| EmailStatus.ProcessIsMaximum | app/domain/application_email.py:40-56 | a sequence of emails computes the highest of start and targets, closed statuses stay, with at most four changes |
| EmailStatus.OrderIsIrrelevant | app/domain/application_email.py:40-56 | the order and repetition of emails do not matter |
| EmailStatus.OutcomeIff | app/domain/application_email.py:40-56 | any sequence of emails leads to the strongest answer among them and the start, said without ranks: employer_rejected, offer, interview, approved |
| EmailStatus.ReachesIff | app/domain/application_email.py:40-56 | which categories mean which answer: a rejection, an offer, two kinds of invitation or a test, an acknowledgement |
| EmailStatus.EmailsAreAttempts | app/domain/application_email.py:40-56 | emails act as the attempts of an email actor, with the same end and as many changes |
| ClaimAggregation.ResolveIsMaximum | app/matching/claim_pipeline.py:644-657 | the OR-group cascade is the maximum rank |
| ClaimAggregation.OverallIsCappedMaximum | app/matching/claim_pipeline.py:739-780 | the overall cascade is entailed if all are, else the maximum rank capped at partial |
| ClaimAggregation.SplitClaims | app/matching/claim_pipeline.py:634-641 | the dictionary holds the alternatives of each requirement, the list the other relations |
| ClaimAggregation.ResolveRelations | app/matching/claim_pipeline.py:643-660 | one relation per group plus the others |
| ClaimAggregation.AggregateClaims | app/matching/claim_pipeline.py:607-736 | overall relation in rank form over the claims that count, level, strength and hard-blocker flag |
| ClaimAggregation.CountsIff | app/matching/claim_pipeline.py:619-665 | required claims count, and optional ones only where there is no required one |
| ClaimAggregation.LevelIff | app/matching/claim_pipeline.py:679-688 | which match level an overall relation and its claims give, for every level |
| ClaimAggregation.OverallIgnoresOrder | app/matching/claim_pipeline.py:607-736 | the overall relation does not depend on the order of claims |
| ClaimAggregation.OverallIsMonotone | app/matching/claim_pipeline.py:607-736 | raising relations of claims never lowers the overall relation |
| ClaimAggregation.MissingIffNothingFound | app/matching/claim_pipeline.py:679-688 | the level is missing iff every counting claim has a lowest-rank relation |
| ClaimAggregation.StrengthIsBetween | app/matching/claim_pipeline.py:666-677 | overall strength lies between the weakest claim and the mean |
| ClaimAggregation.StrengthIsMaximumIff | app/matching/claim_pipeline.py:666-677 | overall strength, before rounding, is the maximum iff all claims are equally strong, against the comment |
| ClaimAggregation.AggregateStrongAndWeakAlternative | app/matching/claim_pipeline.py:607-736 | the input that shows it: two alternatives of one requirement, confirmed and unsupported, give strength 0.175 |
| ClaimAggregation.BlockersAreSplit | app/matching/claim_pipeline.py:782-825 | a hard blocker is unresolved iff the highest rank among the counting claims is that of insufficient data or an evaluation error, decided iff it is not; both only if some claim is a hard blocker, and never both |
| ClaimAggregation.AssessmentIsFaithful | app/matching/claim_pipeline.py:782-825 | an assessment reports its requirement, the aggregated strength, level and relation, and the mean positive coverage of its claims |
| ClaimAggregation.MeanOfCoverages | app/matching/claim_pipeline.py:782-825 | that mean is over the claims with a coverage above 0, and missing iff there is none |
| GapAnalysis.AnalyzeGaps | app/matching/gap_analysis.py:50-248 | one gap per claim that is neither entailed nor silent, in order, with its documented kind and confidence; counters count kinds; raises iff more than 100 |
| GapAnalysis.GapFor | app/matching/gap_analysis.py:66-233 | one turn of the loop: no gap iff entailed or silent, else a gap that explains the claim |
| GapAnalysis.OneKindExplains | app/matching/gap_analysis.py:66-233 | a claim has one kind of gap: no two explain it |
| GapAnalysis.GapsAreCounted | app/matching/gap_analysis.py:64-248 | the number of gaps is claims minus entailed minus silent ones |
| GapAnalysis.CountersPartitionGaps | app/matching/gap_analysis.py:234-248 | the five counters sum to the number of gaps |
| GapAnalysis.CountClaims | app/matching/claim_pipeline.py:206-219 | counts each relation exactly |
| GapAnalysis.AddCounts | app/matching/claim_pipeline.py:292-293 | adding one requirement's counts keeps them exact |
| GapAnalysis.CollectResults | app/matching/claim_pipeline.py:249-320 | exactly one assessment per requirement, failed tasks included, each reporting the requirement, blockers, strength, level and mean coverage of its own claims; counts and gaps are those of the collected claims |
| GapAnalysis.GapsAreConserved | app/matching/gap_analysis.py:64-248 | for evaluated claims total gaps equals claims minus entailed ones, and the sum of the five counters |
| GapAnalysis.CountsAddUp | app/matching/claim_pipeline.py:252-293 | the relation counts sum to the number of collected claims |
| WilsonInterval.IntervalIsPlausibleSet | app/domain/crm_stats.py:28-37 | the interval is exactly the set of x with n(p-x)^2 <= z^2 x(1-x) |
| WilsonInterval.ClampsDoNothing | app/domain/crm_stats.py:37 | in exact arithmetic 0 <= low <= p <= high <= 1 |
| WilsonInterval.BoundsGrow | app/domain/crm_stats.py:28-37 | both bounds increase with the proportion |
| WilsonInterval.MoreSuccessesRaiseBounds | app/domain/crm_stats.py:28-37 | and so with the number of successes |
| WilsonInterval.ReportedInterval | app/domain/crm_stats.py:40-49 | rounding keeps low, value and high in order |
| WilsonInterval.ReportedIff | app/domain/crm_stats.py:28-49 | a rate has a value iff the sample is not empty and bounds iff it is positive, is marked as low below thirty, and fails iff the successes do not fit the sample |
| WilsonInterval.DistinguishableIsSymmetricIrreflexive | app/domain/crm_stats.py:52-57 | no rate is distinguishable from itself, and the relation is symmetric |
| WilsonInterval.DistinguishableIff | app/domain/crm_stats.py:52-57 | two rates are distinguishable iff neither sample is low and their intervals have no value in common |
| WilsonInterval.DistinguishableAgreesWithRates | app/domain/crm_stats.py:52-57 | distinguishable rates are ordered like the observed proportions, after rounding |
| Annotation.ShownOrderIsIrrelevant | app/domain/annotation.py:107-122 | a judgement has one stored identity whichever vacancy was shown first |
| Annotation.PreferenceSurvives | app/domain/annotation.py:107-131 | the stored pair trains on exactly the preferred vacancy, and reasons stay with their vacancy |
| Annotation.PairRefusedIff | app/domain/annotation.py:107-122 | a pair is refused iff its label is unknown or, else, it names one vacancy twice |
| Annotation.Cap | app/domain/annotation.py:193 | the greatest whole number within the share of the limit, but at least one |
| Annotation.DiversifiableIff | app/domain/annotation.py:189-192 | a pool is diversified iff its buckets, each filled with its share, would fill the queue |
| Annotation.SliceIsFront | app/domain/annotation.py:192 | otherwise the front of the pool is kept, up to the limit |
| Annotation.LimitBucketDominance | app/domain/annotation.py:180-204 | in the diversified branch an ordered selection within cap and limit, of length min(limit, sum over the buckets of min(cap, size)), as long as any such selection, and leaving an item out only for a full bucket or the limit; else the plain slice; error iff the share is out of range |
| Annotation.TakeGreedily | app/domain/annotation.py:194-204 | the loop fills every bucket up to the cap unless the limit ends it |
| Annotation.SelectionWithin | app/domain/annotation.py:180-204 | a selection takes from each bucket at most what is there |
| Annotation.GreedyLength | app/domain/annotation.py:194-204 | the loop keeps min(limit, sum over the buckets of min(cap, size)) items |
| Annotation.GreedyIsLongest | app/domain/annotation.py:180-204 | filling every bucket up to the cap cannot be beaten |
| MatchingJobs.MatchingJobService.Schedule | app/matching/jobs.py:58-192 | an undisturbed call: which task is returned and every table afterwards, coalesced into active work, completed work untouched, or terminal work renewed; the error cases change nothing; one task per key |
| MatchingJobs.MatchingJobService.FindTask | app/matching/jobs.py:123-125 | finds the task of a key iff there is one |
| MatchingJobs.ResolveIff | app/matching/jobs.py:65-75 | a request is served iff the application exists, selects a stored CV of its own person, and its vacancy exists; otherwise the first of these that fails is the error |
| MatchingJobs.ClearingIsLocal | app/matching/jobs.py:194-209 | clearing forgets the requirements of one vacancy and the matches of its applications that have a result, and nothing else |
| MatchingJobs.MatchingJobService.Coalesce | app/matching/jobs.py:126-134 | priority only rises, a forced call marks a refresh and clears cached extraction, nothing else changes |
| MatchingJobs.MatchingJobService.Replace | app/matching/jobs.py:136-192 | the terminal task is gone, one scheduled task of the key exists, the result is pending |
| MatchingJobs.NextKeepsKeysUnique | app/matching/jobs.py:58-192 | one undisturbed call or worker step keeps one task per key |
| MatchingJobs.KeysStayUnique | app/matching/jobs.py:58-192 | so does any sequence of them |
| MatchingJobs.ActiveWorkSurvives | app/matching/jobs.py:33-38 | while workers keep a task active no undisturbed call deletes or replaces it; its priority falls and its refresh mark goes only by a worker's retry or refresh |
| MatchingJobs.ForcedCallLeavesActiveWork | app/matching/jobs.py:126-192 | an undisturbed forced call leaves active work for the key, marked for refresh if it was coalesced |
| MatchingJobs.RepeatedCallIsNoOp | app/matching/jobs.py:126-152 | repeating an unforced call returns the same task and changes nothing |
| MatchingRaces.KeysStayUnique | app/storage/task_repository.py:28-73 | over any interleaving of overlapping calls and workers there is at most one row per key |
| MatchingRaces.StepOnRow | app/matching/jobs.py:123-192 | what one step between commits can do to a row: only a worker clears a refresh mark, only a forced call that saw none sets it, only a replacing call deletes, new rows are unmarked and pending or scheduled, states change by workers and saves alone |
| MatchingRaces.CallsRemember | app/matching/jobs.py:123-192 | what a call read of its key stays true of that moment, and the row it replaces is gone for good |
| MatchingRaces.ReturnedOutsideIff | app/matching/jobs.py:176-192 | a returned task is neither active nor completed iff a worker moved it there, last, between the call's first read and its final one |
| MatchingRaces.ForcedReturnsActiveIff | app/matching/jobs.py:126-192 | a task returned to a forced call is active, except iff a worker moved it elsewhere, last, between the call's first read and its final one |
| MatchingRaces.ForcedCoalesceIff | app/matching/jobs.py:126-134 | a forced call that coalesces leaves the row unmarked iff it had read it marked and a worker cleared the mark in between, and leaves it inactive iff a worker took it there in between |
| MatchingRaces.CoalescingFailsIff | app/matching/jobs.py:126-134 | a call that coalesces fails iff another call deleted the row after the first read and there was a higher priority or a new mark to write |
| MatchingRaces.LookUpIff | app/storage/task_repository.py:28-48 | a lookup of an existing task goes on to save it iff it is pending, and the call inserts iff there is none |
| MatchingRaces.SavesOnlyPending | app/matching/jobs.py:162-180 | over any run a call transitions and saves only a task that it made itself or looked up as pending |
| MatchingRaces.InsertFailsIff | app/storage/task_repository.py:28-73 | an insert fails on a duplicate key iff a row of the key came up after the call's first read, and adds its row otherwise |
| MatchingRaces.ActiveRowDeletedIff | app/matching/jobs.py:123-160 | only a replacing call deletes a row, and not one that was active when read; the row is active when deleted iff a worker or another call's save made this row active in between |
| MatchingRaces.PriorityFallsIff | app/matching/jobs.py:126-134 | a call lowers a row's priority iff it coalesces, saw a lower one than its own, and the row was raised above its own in between |
| MatchingRaces.StateChangesIff | app/storage/task_repository.py:50-73 | a call changes the state of an existing row iff it saves over the row it found, which it did not see scheduled and is not |
| MatchingRaces.RunningRowCanBeDeleted | app/matching/jobs.py:136-160 | from any rows with a completed task a run deletes it while it is running |
| MatchingRaces.PriorityCanFall | app/matching/jobs.py:126-134 | from any rows with an active task two calls can leave the lower of their priorities |
| MatchingRaces.MarkCanBeLost | app/workers/matching_worker.py:25-38 | from any rows with a marked running task the worker's refresh and a forced call can leave it unmarked |
| MatchingRaces.MarkCanComeLate | app/workers/matching_worker.py:25-38 | from any rows with an unmarked running task a forced call can mark it when it is completed, behind the worker's look at the mark |
| MatchingRaces.FailedTaskCanBeReturned | app/matching/jobs.py:162-192 | from any rows without a task of the key a call can return a failed one |
| MatchingRaces.ReadAlone | app/matching/jobs.py:123-192 | the steps of a call that nobody disturbs give the rows of one undisturbed call and an active or completed task |
| MatchingRaces.UndisturbedCallIsSchedule | app/matching/jobs.py:123-192 | and these are the rows that the undisturbed call of `MatchingJobs` promises |
| Backfill.AfterIsQuery | app/matching/backfill.py:173-180 | the page query selects exactly the ids beyond the cursor |
| Backfill.AttemptedIff | app/matching/backfill.py:184-200 | scheduling is tried iff there is a result and it is stale, failed or of another source version |
| Backfill.ScheduleStaleOwnerResults | app/matching/backfill.py:161-228 | the next page in id order, its cursor and has-more flag, and counters exact for it; the two argument errors |
| Backfill.CountOutcomes | app/matching/backfill.py:184-215 | each counter and each failure code is the number of applications with that outcome |
| Backfill.CountersCoverPage | app/matching/backfill.py:184-228 | every scanned application is in exactly one counter |
| Backfill.PageAddsUp | app/matching/backfill.py:184-228 | scanned = scheduled + three skip counters + failed, and failure codes sum to failed |
| Backfill.PageAdvances | app/matching/backfill.py:217-228 | one page moves its applications from what is left to what was visited |
| Backfill.FollowCursor | app/matching/backfill.py:161-228 | following the cursor visits every application exactly once in id order for any batch sizes, and terminates |
| BrowserSessions.BrowserSessionService.constructor | app/browser/session_service.py:17-19 | starts consistent with no session |
| BrowserSessions.BrowserSessionService.Save | app/browser/session_service.py:21-60 | the row of the user and site is written, a failure changes nothing, and every intermediate world is consistent |
| BrowserSessions.BrowserSessionService.WriteRow | app/browser/session_service.py:38-60 | the worlds passed through: new file, committed row, old file removed, or the new file removed after a failed commit |
| BrowserSessions.BrowserSessionService.FindRow | app/browser/session_service.py:32-36 | finds the session of a user and site iff there is one |
| BrowserSessions.BrowserSessionService.Restore | app/browser/session_service.py:62-76 | returns the stored state or marks the row corrupted; no file changes |
| BrowserSessions.BrowserSessionService.Delete | app/browser/session_service.py:78-85 | row first, then file; a failed commit changes nothing |
| BrowserSessions.SaveStepsAreConsistent | app/browser/session_service.py:38-60 | at every step of a save each row names an existing file of its own |
| BrowserSessions.RestoreStepsAreConsistent | app/browser/session_service.py:62-76 | the same for restore |
| BrowserSessions.DeleteStepsAreConsistent | app/browser/session_service.py:78-85 | the same for delete |
| BrowserSessions.SavedComesBack | app/browser/session_service.py:38-60 | a committed save stores the content under its row, removes the file it replaces and leaves every other session alone; the content then loads iff it is readable |
| BrowserSessions.RestoredIsMarked | app/browser/session_service.py:62-76 | a committed restore marks the row available iff its file can be read, else corrupted, and changes nothing else |
| BrowserSessions.DeletedIsGone | app/browser/session_service.py:78-85 | a committed delete removes the row and its file, and no other session's |
| BrowserSessions.HistoriesAreConsistent | app/browser/session_service.py:21-85 | after any history with failed commits and crashes every row names its file; without crashes the files are exactly those that rows name |

## Left out

- Floating point: scores, shares, strengths, confidences and probabilities are exact reals; rounding is Python's round-half-even in exact arithmetic.
- HTML tokenisation: the builder gets start, end and text events. Attribute lists arrive as dictionaries, and nodes are indices into the builder's arena instead of heap objects, so aliasing of node objects is not modelled.
- CSS rendering, title and company selectors, and the texts of errors: selectors are compared as values.
- UrlBraces.RoundTripForAnyLocation: says nothing of a location spelled with braces when the URL itself has a closing one. For one that covers whole placeholders, while rendering lengthens one text and shortens another, it gives one direction.
- Lone surrogates, for which `quote_plus` raises.
- `urlsplit`: the scheme and host of the results URL are an input (`base`).
- The discovery stream as a class: its tasks, queue, lock and task dictionary are one state value that steps transform, because what matters is their interleaving. Client disconnects, cancellation, event payloads, and the order in which waiting tasks get the semaphore or the lock are not modelled.
- The ingestion task behind a CV: whether it succeeds is not modelled; both ways a child goes on to schedule its matching.
- StreamProgress.StreamsEnd: bounds runs without new vacancies; whether a site ever stops yielding vacancies is not modelled.
- Ratio validation, the coverage report, label exports and the label counts of a frozen split: easy members; the shares are an input of the hashed fold.
- The sources of a duration verdict are the kept intervals themselves, not their ISO-text dictionaries.
- Explanations, labels and symbols of claim results, synthesized evidence, the best entailment and the experience level of an assessment.
- ClaimAggregation.StrengthIsBetween: speaks of the strength before it is rounded to four digits.
- review_priority, normalize_reasons, comments and confidences of annotations.
- MatchingJobs.MatchingJobService.Schedule: one call is one step there; `MatchingRaces` has the steps between commits.
- MatchingRaces.StepOnRow: a worker's step is any change of state and priority, with or without the mark; which steps workers really take is not modelled.
- Of the races the task rows only; result rows and cleared extractions under races, payloads, attempt numbers, the transition log, row locks that delay a step, and sessions that do not run under READ COMMITTED are not modelled.
- retry_delay_seconds, schedule_applications and verify_index_metadata: easy arithmetic or plain counting.
- Backfill.FollowCursor: the owner's applications do not change while the cursor is followed.
- Temporary files of the session store, encryption, path checks and simultaneous saves of one site; fresh file names are an assumption.
- The submission ledger: app/services/application_lifecycle.py is not part of this model, so nothing is claimed about double submission.
- Playwright adapters, workflow executors, model providers, text heuristics, index management, settings and request plumbing.
