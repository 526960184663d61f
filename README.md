# Restaurant menu site: routing, redirections and menu boards in Dafny

This project models the logic at the centre of a CMS-driven restaurant menu
site built on Next.js. Four pieces of it are modelled, and the project proves
what each of them promises.

- **Edge middleware** (`Middleware`, `QueryFolding`, `RoutingProperties`).
  Every request passes through it. It decides on the first rule that applies,
  in this order:
  - enter preview mode;
  - leave preview mode;
  - rewrite to the dynamic-content endpoint for a numeric `ContentID`;
  - let a path with an extension through;
  - redirect a `lang=` locale switch;
  - fold the query string into the path as a `~~~…~~~` token;
  - rewrite a path without a locale prefix under the default locale.

  The route matcher, which keeps `/api`, `/assets`, `/_next/static`,
  `/_next/image` and `/favicon.ico` away from the middleware, is `Handle`.
  The browser primitives the middleware relies on are modelled concretely:
  - `encodeURIComponent` (`UriEncoding`), over UTF-8 and `%HH`. The source never decodes. `UriEncoding.DecodeURIComponent` is a reference inverse, strict as `decodeURIComponent` is (any escape run that is not the shortest UTF-8 encoding of a scalar value is a URIError). The lemmas use it to show that the encodings at src/middleware.ts:25 and :72 can be decoded back;
  - the application/x-www-form-urlencoded serializer of the WHATWG URL Standard (`SearchParams.Serialize`);
  - `URLSearchParams.get`, `has` and `delete`;
  - the global `parseInt` (`JsNumbers`);
  - the string methods (`Strings`).
- **Redirection table** (`Redirections`). `getRedirections` turns the CMS's
  list of URL redirections into a dictionary keyed by normalised origin path.
  - A key is lower-cased. A leading `~/` becomes `/`, and `scheme://host` is dropped.
  - Each redirection's destination loses a leading `~` in place.
  - The result depends on the reply. An up-to-date reply that was not forced,
    and a failed fetch, give an empty table with their own bookkeeping fields.

  Redirections are objects whose `destinationUrl` the loop rewrites, so they
  are a class. The loop is a method proved against `KeyMap`, its specification function.
- **Menu board** (`MenuBoard`). It shows the items of the menu chosen by the
  editor:
  1. The items are grouped by category name, with a `reduce` into a record of arrays.
  2. The groups are flattened in the record's property order (`Object.values(…).flat()`).
  3. At most six are shown, under a title chosen by fallback.
  4. When nothing was loaded, an empty-menu message is shown instead.

  The grouping is a loop method proved against `KeyOrder` and `Members`.
  The property order of `Object.values` is modelled as JavaScript defines it:
  array-index keys first, ascending; then the other keys, in creation order.
- **Menu selector** (`MenuSelector`). The drop-down starts on the menu named in
  the current path. When another menu is chosen, it navigates to that menu's
  page under the current locale.

The locale helpers `isValidLocale`, `getLocaleFromPathname` and
`removeLocaleFromPathname` are defined in `src/lib/i18n/config`, which is not
part of this model. They are carried as function-valued fields of
`Middleware.LocaleConfig`. A lemma that depends on their behaviour states it in
its `requires`.

Behaviours of the code worth noting:

- A `ContentID` that does not parse to a positive number ends the rule chain with no action. It does not fall through to the later rules (`RoutingProperties.ContentIdDecides`).
- A '.' anywhere in the path counts as an extension when text follows its last '.', not only a '.' in the last segment (`Middleware.HasExtension`).
- A '.' in the serialized query makes the folded path look static, so such a request is not rewritten under the default locale.
- In the preview URLs, `lang` and `ContentID` are inserted as they are, without percent-encoding. A missing `lang` prints as `null`.
- A path that already carries a locale prefix is still rewritten when it has a query, to the path with the folded query token.

## Model

| member | source | states |
|---|---|---|
| RoutingProperties.PreviewEntryFirst | src/middleware.ts:20-26 | With a preview key in the query the answer is the preview redirect whatever else the query holds, and the `slug` and key components decode back to the path and the key |
| RoutingProperties.PreviewExit | src/middleware.ts:27-32 | Without a preview key and with `AgilityPreview=0` the answer is the preview-exit redirect |
| RoutingProperties.ContentIdDecides | src/middleware.ts:33-39 | Once the preview rules do not apply and `ContentID` is non-empty, the answer is the dynamic rewrite with the parsed id if it is positive and no action otherwise, independent of the path and the locale configuration |
| RoutingProperties.ExtensionBypass | src/middleware.ts:18-40 | With no earlier rule applying, a path with a non-empty extension passes through untouched |
| RoutingProperties.LocaleSwitch | src/middleware.ts:44-59 | A valid `lang` different from the path's locale redirects to the path without its locale (under `/lang` unless `lang` is the default), with `lang` removed from the query and the origin kept |
| RoutingProperties.RedirectCases | src/middleware.ts:20-59 | The middleware redirects exactly for preview entry, preview exit and a locale switch |
| RoutingProperties.LocaleSwitchSettles | src/middleware.ts:44-59 | Following a locale-switch redirect never leads to a second redirect |
| RoutingProperties.FoldedTokenUnambiguous | src/middleware.ts:72 | The encoded query holds no '~', so the folded token cannot contain its own marker |
| RoutingProperties.RouteEntersLocaleRouting | src/middleware.ts:33-44 | With no earlier rule applying and no extension, the decision is that of the locale-routing rules |
| RoutingProperties.DefaultLocaleRewrite | src/middleware.ts:79-87 | A path with no locale prefix, no '.' and not under `/_next` is rewritten to the default locale followed by the path with its folded query |
| RoutingProperties.PrefixedPathKeepsItsLocale | src/middleware.ts:84-92 | A path with a locale prefix (or under `/_next`) passes through without a query and is rewritten to itself with the folded query otherwise |
| RoutingProperties.DefaultPrefixIsLocalePrefix | src/middleware.ts:79-85 | Prefixing `/defaultLocale` gives a path the locale test recognises |
| RoutingProperties.DefaultPrefixAddsNoDot | src/middleware.ts:80-85 | Prefixing a well-formed locale code adds no '.' that would make the path static |
| RoutingProperties.BarePrefixedPathPasses | src/middleware.ts:65-93 | A locale-prefixed path without query or extension passes through |
| RoutingProperties.LocaleRewriteIdempotent | src/middleware.ts:65-92 | The default-locale rewrite is idempotent: its target, requested again, passes through |
| RoutingProperties.HandleRewriteIdempotent | src/middleware.ts:84-98 | The same through the route matcher: the rewritten path reaches the middleware and passes through |
| RoutingProperties.ApiTargetsBypassMiddleware | src/middleware.ts:98 | Every `/api…` path, including the preview and dynamic-redirect endpoints the middleware targets, is kept away from the middleware |
| Middleware.RouteOnOrigin | src/middleware.ts:14-93 | Every URL the rule chain redirects or rewrites to, and so every URL the matched handler produces, is on the request's origin |
| Middleware.LocaleRouting | src/middleware.ts:44-92 | After the extension test, the middleware redirects exactly for a locale switch |
| Middleware.LocaleRoutingOnOrigin | src/middleware.ts:44-92 | Every URL the locale routing redirects or rewrites to is on the request's origin |
| Middleware.HasExtension | src/middleware.ts:18 | `ext` is non-empty exactly when the path holds a '.' and does not end with one |
| Middleware.PreviewUrl | src/middleware.ts:22-25 | The preview-entry URL is the preview endpoint on the request's origin, starting with its `locale` parameter |
| Middleware.PreviewExitUrl | src/middleware.ts:29-31 | The preview-exit URL is the exit endpoint on the request's origin, starting with its `locale` parameter |
| Middleware.DynamicRedirectUrl | src/middleware.ts:37 | The dynamic-redirect URL is the endpoint on the request's origin, and for an id below 10^21 its `ContentID` parses back to the id |
| Middleware.CurrentLocale | src/middleware.ts:45 | The current locale is the default locale or the non-empty locale found in the path, and it is never empty when the default is not |
| Middleware.SwitchedPath | src/middleware.ts:48-58 | Switching to the default locale gives the path without its locale; switching to another gives a path starting with `/lang` |
| Middleware.FoldQuery | src/middleware.ts:71-74 | The folded path extends the path, and equals it exactly when the serialized query is empty |
| Middleware.MatcherAccepts | src/middleware.ts:98 | A path the matcher lets through starts with '/' and not with `/api` |
| Middleware.Handle | src/middleware.ts:96-100 | A path the matcher refuses passes through untouched |
| Middleware.HasLocalePrefix | src/middleware.ts:79 | A path has a locale prefix exactly when some locale is its whole first segment |
| QueryFolding.FoldExtends | src/middleware.ts:73 | Folding keeps the path as a prefix, followed by '/' or, after a trailing '/', by the marker |
| QueryFolding.FoldAsAppend | src/middleware.ts:71-74 | A folded path is the path without its trailing '/', a '/', and the marker-delimited encoded query |
| QueryFolding.FoldLastSegment | src/middleware.ts:72-73 | The folded token is exactly the last path segment of the folded path |
| QueryFolding.FoldQueryInjective | src/middleware.ts:71-74 | Distinct serialized query strings give distinct folded paths |
| QueryFolding.FoldedQueriesDistinct | src/middleware.ts:65-74 | Distinct queries give distinct folded paths, so distinct queries are cached as distinct pages |
| QueryFolding.FoldKeepsLocaleSegment | src/middleware.ts:73-79 | Folding does not change whether a given locale code is the first segment |
| QueryFolding.FoldKeepsLocalePrefix | src/middleware.ts:73-79 | Folding does not change whether the path has a locale prefix |
| QueryFolding.FoldKeepsNextPrefix | src/middleware.ts:73-80 | Folding does not change whether the path is under `/_next` |
| QueryFolding.FoldKeepsAbsent | src/middleware.ts:72-80 | A character absent from the path and from the encoded query, other than '/' and '~', is absent from the folded path |
| QueryFolding.FoldKeepsLeadingSlash | src/middleware.ts:73 | A folded absolute path stays absolute |
| SearchParams.Get | src/middleware.ts:15-16 | `get` answers `null` exactly when the name is absent, and otherwise a value paired with the name |
| SearchParams.GetFirst | src/middleware.ts:15-16 | `get` returns the value of the first pair with the name |
| SearchParams.HasAppend | src/middleware.ts:20 | `has` holds of a concatenation exactly when it holds of one of the parts |
| SearchParams.Delete | src/middleware.ts:51 | After `delete` the name is absent, and every pair left was in the query |
| SearchParams.DeleteOne | src/middleware.ts:51 | A single pair goes when it has the name and stays otherwise |
| SearchParams.DeleteKeepsOthers | src/middleware.ts:51 | Every pair with another name stays, as often as it was there |
| SearchParams.DeleteAppend | src/middleware.ts:51 | Deleting from a concatenation concatenates the deletions, so the kept pairs keep their order |
| SearchParams.GetAfterDelete | src/middleware.ts:51-57 | Deleting `lang` changes the value of no other parameter |
| SearchParams.Serialize | src/middleware.ts:65-66 | The serialized query is empty exactly when there are no parameters, and it holds no '~' |
| SearchParams.SerializePairInjective | src/middleware.ts:65 | Distinct pairs serialize differently |
| SearchParams.SerializeInjective | src/middleware.ts:65 | Distinct queries serialize differently |
| JsNumbers.ParseIntOfDecimal | src/middleware.ts:34 | A decimal digit string, leading zeros included, parses to the number it denotes |
| JsNumbers.ParseIntToString | src/middleware.ts:34-37 | `parseInt` reads back the decimal text of every natural number, so for an id below 10^21 the rewritten `ContentID` parses to the same id |
| JsNumbers.ParseInt | src/middleware.ts:34-35 | Text with nothing after the white space gives NaN; a negative result comes from a leading '-'; a decimal digit first (and no hex prefix) gives a number that is not negative |
| JsNumbers.IntToStringValue | src/middleware.ts:37 | The decimal text of a number denotes that number |
| JsNumbers.IntToString | src/middleware.ts:37 | The text of a number below 10^21 is a non-empty digit string without a leading zero |
| JsNumbers.TrimStart | src/middleware.ts:34 | Skipping white space removes only white space, and leaves a suffix that does not start with white space |
| JsNumbers.LeadingDigits | src/middleware.ts:34 | The digits read are the longest all-digit prefix |
| JsNumbers.ParseIntLeadingZeros | src/middleware.ts:34-37 | `ContentID=007` parses to 7 |
| JsNumbers.ParseIntStopsAtNonDigit | src/middleware.ts:34-37 | `ContentID=42abc` parses to 42 |
| JsNumbers.ParseIntNoDigits | src/middleware.ts:34-35 | `ContentID=abc` does not parse |
| UriEncoding.EncodeURIComponent | src/middleware.ts:25 | The encoding consists of '%', upper-case hex digits and unreserved characters taken from the input |
| UriEncoding.DecodeEncode | src/middleware.ts:25 | The slug and key encoded here can be read back: the reference inverse `decodeURIComponent` undoes `encodeURIComponent` for every string |
| UriEncoding.DecodeURIComponent | src/middleware.ts:72 | The reference inverse of the encoding at this line (the source never decodes): decoding never lengthens the text, and text without '%' decodes to itself |
| UriEncoding.DecodeRejectsOverlong | src/middleware.ts:72 | The reference inverse is as strict as `decodeURIComponent`: an overlong UTF-8 form (`%C0%80`) is a URIError |
| UriEncoding.DecodeRejectsBadContinuation | src/middleware.ts:72 | The reference inverse is as strict as `decodeURIComponent`: a continuation byte outside 0x80-0xBF (`%C3%41`) is a URIError |
| UriEncoding.EncodeInjective | src/middleware.ts:72 | Distinct strings never share an encoding |
| UriEncoding.EncodeOmits | src/middleware.ts:72 | A character that is neither '%' nor a hex digit, and is not kept from the input, is absent from the encoding |
| UriEncoding.Utf8RoundTrip | src/middleware.ts:25 | The UTF-8 lead byte announces the sequence length and the bytes decode back to the character |
| UriEncoding.PercentEncode | src/middleware.ts:25 | Each byte becomes three characters, each '%' or an upper-case hex digit |
| UriEncoding.ReadPercentEncoded | src/middleware.ts:25 | Reading back percent triplets yields the encoded bytes |
| UriEncoding.FormUrlEncode | src/middleware.ts:65 | The form serializer only produces unreserved characters, '+' and '%' |
| UriEncoding.FormDecodeEncode | src/middleware.ts:65 | Form-urlencoded text decodes back, '+' as a space, to the text encoded |
| UriEncoding.FormUrlEncodeInjective | src/middleware.ts:65 | Distinct strings never share a form-urlencoding |
| Strings.AfterLast | src/middleware.ts:18 | `split('.').pop()` is a '.'-free suffix of the path; a '.' comes right before it when the path has one, and it is the whole path when the path has none |
| Strings.AfterLastAppend | src/middleware.ts:18 | Appending a separator and a separator-free segment makes that segment the last |
| Strings.JoinSplit | src/components/MenuSelector.tsx:36 | Joining the pieces of a split gives back the string |
| Strings.SplitJoin | src/components/MenuSelector.tsx:36 | Splitting a join of separator-free pieces gives back the pieces |
| Strings.Split | src/components/MenuSelector.tsx:36 | A split has at least one piece and no piece contains the separator |
| Strings.IndexOfFrom | src/lib/cms/getRedirections.ts:59 | `indexOf(t, from)` finds an occurrence at or after `from`, and none before it |
| Strings.IncludesIff | src/lib/cms/getRedirections.ts:58 | `includes` holds exactly when the text occurs at some offset |
| Strings.ToLower | src/lib/cms/getRedirections.ts:56 | Lower-casing keeps the length and lower-cases each character in place |
| Strings.ToLowerIdempotent | src/lib/cms/getRedirections.ts:56 | The result has no upper-case letter, and lower-casing twice is lower-casing once |
| Redirections.GetRedirections | src/lib/cms/getRedirections.ts:29-84 | A failed fetch gives an empty, not-up-to-date table stamped with the current time; an up-to-date reply that was not forced gives an empty table and leaves the destinations alone; otherwise the table is `KeyMap` of the list and every destination lost its leading `~` |
| Redirections.EnterAll | src/lib/cms/getRedirections.ts:55-66 | The loop builds exactly `KeyMap` of the list and rewrites every destination once, even when the list holds one object twice |
| Redirections.EnterAt | src/lib/cms/getRedirections.ts:55-65 | One callback enters the redirection under its normalised key and leaves its destination stripped of the tilde, also for an object listed twice |
| Redirections.KeyMapStep | src/lib/cms/getRedirections.ts:65 | Entering one more redirection updates the table built from the ones before it under that redirection's key |
| Redirections.KeyMap | src/lib/cms/getRedirections.ts:49-66 | The table has at most one entry per listed redirection |
| Redirections.NormalizeKey | src/lib/cms/getRedirections.ts:56-61 | Every key is lower-case |
| Redirections.StripTilde | src/lib/cms/getRedirections.ts:62-63 | A destination is changed exactly when it starts with `~/` |
| Redirections.StripHost | src/lib/cms/getRedirections.ts:58-61 | A key is kept, or it had a `://` and is cut to a path starting with '/' |
| Redirections.RewriteDestination | src/lib/cms/getRedirections.ts:62-64 | The destination loses a leading `~` in place |
| Redirections.OriginKey | src/lib/cms/getRedirections.ts:56-61 | The reassigned key equals the normalised origin |
| Redirections.Redirection.constructor | src/lib/cms/getRedirections.ts:3-8 | A redirection holds the four fields it was given |
| Redirections.Keys | src/lib/cms/getRedirections.ts:55-61 | One key per listed redirection, in order, each its normalised origin |
| Redirections.StripTildeIdempotent | src/lib/cms/getRedirections.ts:62-64 | Stripping a stripped destination changes nothing; a `~/` destination becomes its `/…` part |
| Redirections.StripTildeSuffix | src/lib/cms/getRedirections.ts:57 | Stripping the tilde keeps a suffix |
| Redirections.StripHostSuffix | src/lib/cms/getRedirections.ts:58-61 | Dropping scheme and host keeps a suffix |
| Redirections.NormalizeKeyIsLowerSuffix | src/lib/cms/getRedirections.ts:56-61 | Every key is a suffix of the lower-cased origin and has no upper-case letter |
| Redirections.TildeOriginKey | src/lib/cms/getRedirections.ts:57 | An origin written `~/…` is stored under a key starting with '/' |
| Redirections.SchemeNotTilde | src/lib/cms/getRedirections.ts:57-58 | A `scheme://` origin never has the tilde stripped |
| Redirections.SchemeEnd | src/lib/cms/getRedirections.ts:59 | The first `://` of an origin is the one after its scheme |
| Redirections.HostEnd | src/lib/cms/getRedirections.ts:59 | The '/' searched for after `://` is the one that opens the path |
| Redirections.HostStripped | src/lib/cms/getRedirections.ts:58-61 | An origin `scheme://host/path` is stored under `/path` |
| Redirections.BareHostKept | src/lib/cms/getRedirections.ts:58-61 | An origin `scheme://host` with no path keeps its whole lower-cased text, since `substring(-1)` is the whole string |
| Redirections.TableStep | src/lib/cms/getRedirections.ts:65 | One more assignment adds or replaces exactly one entry |
| Redirections.TableDomain | src/lib/cms/getRedirections.ts:65 | The dictionary has an entry exactly for the keys assigned |
| Redirections.TableLastWins | src/lib/cms/getRedirections.ts:65 | The value under a key is the one assigned last |
| Redirections.TableEntry | src/lib/cms/getRedirections.ts:65 | Every entry was assigned at some position |
| Redirections.KeyMapDomain | src/lib/cms/getRedirections.ts:55-66 | The table has a key exactly when some listed redirection normalises to it |
| Redirections.KeyMapLastWins | src/lib/cms/getRedirections.ts:65 | On a key collision the later redirection wins |
| Redirections.KeyMapKeysMatch | src/lib/cms/getRedirections.ts:65 | Every stored redirection is from the list and its origin normalises to its key |
| MenuBoard.GroupByCategory | src/components/agility-components/MenuBoard.tsx:101-111 | The `reduce` creates one group per category in order of first appearance, and each group holds exactly that category's items in list order |
| MenuBoard.CategoryKey | src/components/agility-components/MenuBoard.tsx:103 | The category key is never empty, and it is the category's own name when that is non-empty |
| MenuBoard.KeyOrderSpec | src/components/agility-components/MenuBoard.tsx:101-111 | The created categories are distinct and are exactly the categories of the items |
| MenuBoard.MembersSpec | src/components/agility-components/MenuBoard.tsx:101-111 | A group holds only items of its category, and is empty exactly for a category no item has |
| MenuBoard.MembersAppend | src/components/agility-components/MenuBoard.tsx:101-111 | Grouping a concatenation concatenates the groups |
| MenuBoard.MembersSnoc | src/components/agility-components/MenuBoard.tsx:107 | Pushing an item extends only its own category's group |
| MenuBoard.KeyOrderMembers | src/components/agility-components/MenuBoard.tsx:104-106 | A category has been created exactly when its group is non-empty |
| MenuBoard.InsertByIndex | src/components/agility-components/MenuBoard.tsx:116 | Insertion adds exactly the one key |
| MenuBoard.InsertByIndexBound | src/components/agility-components/MenuBoard.tsx:116 | Insertion keeps a common lower bound |
| MenuBoard.InsertByIndexSorted | src/components/agility-components/MenuBoard.tsx:116 | Insertion keeps the array-index keys sorted |
| MenuBoard.SortByIndex | src/components/agility-components/MenuBoard.tsx:116 | Array-index keys are listed in ascending numeric order, as a permutation of themselves |
| MenuBoard.IndexKeys | src/components/agility-components/MenuBoard.tsx:116 | The array-index keys are exactly the keys that are canonical array indices |
| MenuBoard.NamedKeys | src/components/agility-components/MenuBoard.tsx:116 | The named keys are exactly the keys that are not array indices |
| MenuBoard.NamedKeysAppend | src/components/agility-components/MenuBoard.tsx:116 | The named keys of a concatenation are those of the parts, one after the other |
| MenuBoard.NamedKeysKeepOrder | src/components/agility-components/MenuBoard.tsx:116 | Two named keys appear in the order in which they were created |
| MenuBoard.SplitKeysPermutation | src/components/agility-components/MenuBoard.tsx:116 | Index keys and named keys together are a permutation of all keys |
| MenuBoard.NamedKeysAll | src/components/agility-components/MenuBoard.tsx:116 | Without index keys the named keys are all keys in creation order |
| MenuBoard.ObjectKeysSpec | src/components/agility-components/MenuBoard.tsx:116 | The property order is a permutation of the categories without repeats; every index key comes before every named key, the index keys ascend, the named keys keep their creation order, and it is the creation order itself when no category is an index |
| MenuBoard.ObjectKeys | src/components/agility-components/MenuBoard.tsx:116 | `Object.values` walks exactly the created categories |
| MenuBoard.ObjectKeysCounts | src/components/agility-components/MenuBoard.tsx:116 | The property order holds each category once, and its index part is sorted and holds only index keys |
| MenuBoard.ObjectKeysOrder | src/components/agility-components/MenuBoard.tsx:116 | Every index key comes before every named key, and the named keys keep their creation order |
| MenuBoard.IndexBeforeNamed | src/components/agility-components/MenuBoard.tsx:116 | An index key comes before a named key |
| MenuBoard.FlatMembersSnoc | src/components/agility-components/MenuBoard.tsx:116 | One more item lands in exactly one of the flattened groups, or in none |
| MenuBoard.FlatMembersPermutation | src/components/agility-components/MenuBoard.tsx:116 | Flattening groups of distinct covering categories yields each item exactly once |
| MenuBoard.ObjectKeysCover | src/components/agility-components/MenuBoard.tsx:116 | The properties `Object.values` walks are distinct and cover every item's category |
| MenuBoard.AllItemsPermutation | src/components/agility-components/MenuBoard.tsx:116 | The flattened list is a permutation of the loaded items: nothing lost, nothing doubled |
| MenuBoard.AllItemsInFirstAppearanceOrder | src/components/agility-components/MenuBoard.tsx:116 | With no index-like category name, the groups follow one another in order of first appearance |
| MenuBoard.Displayed | src/components/agility-components/MenuBoard.tsx:138 | The grid shows the first min(6, n) items of the flattened list |
| MenuBoard.DisplayTitle | src/components/agility-components/MenuBoard.tsx:113 | The title is never empty |
| MenuBoard.DisplayTitleFallback | src/components/agility-components/MenuBoard.tsx:113 | The board title wins when non-empty, then the menu name, and "Menu" appears exactly when neither is set or one of them is "Menu" |
| MenuBoard.RenderSpec | src/components/agility-components/MenuBoard.tsx:72-148 | The empty-menu message appears exactly when no item was loaded, which is so without a menu id or when the list fetch fails; the grid shows one to six items, a prefix of the flattened list, all from the loaded items |
| MenuBoard.LoadItems | src/components/agility-components/MenuBoard.tsx:68-97 | No items without a menu id, with an empty list reference or when the list fetch throws; otherwise the fetched list |
| MenuBoard.Render | src/components/agility-components/MenuBoard.tsx:113-148 | The title is never empty, and a grid shows one to six items |
| MenuBoard.AnyInheritedSnoc | src/components/agility-components/MenuBoard.tsx:103-107 | One more item adds an inherited category name exactly when its own category is one |
| MenuBoard.GroupAsWritten | src/components/agility-components/MenuBoard.tsx:101-111 | When the grouping as written does not throw, it created own properties only under names that are not inherited |
| MenuBoard.GroupAsWrittenThrows | src/components/agility-components/MenuBoard.tsx:104-107 | The grouping as written throws exactly when some category is named like a property inherited from `Object.prototype` |
| MenuBoard.GroupAsWrittenAgrees | src/components/agility-components/MenuBoard.tsx:101-111 | When it does not throw, the grouping as written builds the same groups as the corrected grouping |
| MenuBoard.InheritedCategoryThrows | src/components/agility-components/MenuBoard.tsx:103-107 | A one-item menu whose category is "constructor" throws as written, while the corrected grouping shows the item |
| MenuSelector.InitialSelection | src/components/MenuSelector.tsx:21-27 | The initial selection is always one of the drop-down's values |
| MenuSelector.InitialSelectionPriority | src/components/MenuSelector.tsx:23-25 | Breakfast beats lunch and lunch beats dinner when several page names occur, in both directions |
| MenuSelector.InitialSelectionFollowsOptions | src/components/MenuSelector.tsx:12-27 | The initial selection is the first option, in drop-down order, whose page name occurs in the path, or the first option when none does |
| MenuSelector.FirstNamedIn | src/components/MenuSelector.tsx:12-16 | The option found is one of the drop-down's options |
| MenuSelector.FindOption | src/components/MenuSelector.tsx:33 | `find` gives an option with the chosen value, and nothing exactly when no option has it |
| MenuSelector.LocaleOf | src/components/MenuSelector.tsx:36 | The locale is never empty and never contains '/' |
| MenuSelector.LocaleOfPrefixed | src/components/MenuSelector.tsx:36 | A path starting with a non-empty, slash-free segment has that segment as its locale |
| MenuSelector.LocaleOfFallback | src/components/MenuSelector.tsx:36 | A path whose first segment is empty or missing has the locale "en-us" |
| MenuSelector.HandleChange | src/components/MenuSelector.tsx:29-38 | The selection always becomes the chosen value; a known option navigates to "/" + locale + its path, and an unknown value navigates nowhere |
| MenuSelector.NavigationTarget | src/components/MenuSelector.tsx:33-37 | A known option's target is the locale segment followed by its page name |
| MenuSelector.NavigationKeepsLocale | src/components/MenuSelector.tsx:36-37 | Navigating to a menu keeps the current locale |
| MenuSelector.NavigationRoundTrip | src/components/MenuSelector.tsx:21-37 | On the page navigated to, the selector starts on the option just chosen, provided the locale names no menu page |
| MenuSelector.NameInTarget | src/components/MenuSelector.tsx:23-25 | A page name occurs in the target built from it |
| MenuSelector.NotInTarget | src/components/MenuSelector.tsx:23-25 | A page name found in neither the locale nor the target's page name does not occur in the target |
| MenuSelector.SelectsBreakfast | src/components/MenuSelector.tsx:23 | On the breakfast page the selector starts on breakfast |
| MenuSelector.SelectsLunch | src/components/MenuSelector.tsx:24 | On the lunch page the selector starts on lunch |
| MenuSelector.SelectsDinner | src/components/MenuSelector.tsx:25 | On the dinner page the selector starts on dinner |

## Left out

- The bodies of `isValidLocale`, `getLocaleFromPathname` and `removeLocaleFromPathname`. `src/lib/i18n/config` is not part of this model, so they are function-valued fields of `LocaleConfig`. The lemmas that need them to match whole segments, or need the default locale to be among the locales, say so in their `requires`.
- `NextResponse`, `URL` and status codes. A response is `Redirect(href)`, `Rewrite(href)` or `PassThrough`, and the redirect's 307 status is not represented.
- The CMS client calls (`getUrlRedirections`, `getContentItem`, `getContentList`). They are foreign I/O, so their results are inputs: `ServerReply`, `Menu` and `ListReply`.
- The clock in the error branch of `getRedirections`. The current time is the `now` parameter.
- Error logging (`console.error`, `console.log`). It has no effect on results.
- `toLowerCase` beyond ASCII. `Strings.ToLower` folds only 'A'–'Z'.
- JsNumbers.ParseInt: does not round a digit run too long for a double, so ids beyond 2^53 keep their exact value.
- JsNumbers.IntToString: prints the exact decimal digits of any natural. JavaScript prints a Number of 10^21 or more in exponent form ("1e+21"). A digit run of more than about 309 digits parses to `Infinity`, which passes the `> 0` test and prints as "Infinity". Neither form is modelled.
- Middleware.DynamicRedirectUrl: for an id of 10^21 or more, the source's URL carries "1e+21" (which `parseInt` reads back as 1) or "Infinity", so its `ContentID` does not parse back to the id. The contract holds only in the model's exact-digit printing, which matches the source below 10^21.
- JsNumbers.ParseIntToString: the round trip holds for the exact-digit text; in the source it holds only for ids below 10^21, because of the exponent form.
- The `__proto__` key in the redirection table. Assigning to `items["__proto__"]` changes the dictionary's prototype instead of adding an entry; here `Table` stores it like any other key.
- Redirections.GetRedirections: does not model an exception in the middle of the loop (for example a null `originUrl`). An exception would leave the earlier destinations already rewritten and return the error shape. Fields are never null in this model.
- MenuBoard.LoadItems: two failures outside the `try` are not modelled, and both propagate out of the component. The first is a failure of the menu fetch itself (`getContentItem`). The second is the dereference `menu.fields.menuItems.referencename` (src/components/agility-components/MenuBoard.tsx:82), which throws a TypeError for a menu without a `menuItems` field; `Menu.itemsRef` is always a string, so such a menu cannot be represented. Only the list fetch's failure is caught, and that is modelled.
- Menu items are modelled with only the fields the logic reads: content id, name and category. Prices, descriptions, images and the markup of the grid and the cards are display components.
- The multi-board simulator page. It is timer- and DOM-driven UI.
- Middleware.LocaleRouting: `new URL(pathname, baseUrl)` (src/middleware.ts:90) reads a path starting with "//" or "/\" as a scheme-relative reference, whose host replaces the origin's. The model joins the origin and the path as text, so `LocaleRoutingOnOrigin` and `RouteOnOrigin` do not cover such a path.
- UriEncoding.FormUrlDecode: only the decoding of one encoded value is modelled, as the inverse of the serializer. The full WHATWG query parser (splitting on '&' and '=', lenient '%') is not.
- MenuSelector.HandleChange: the React state update and `router.push` are represented by the returned `Change` value, not performed.

## Findings

| source | as written | input that shows it | evidently intended | confidence | as-written member | corrected member |
|---|---|---|---|---|---|---|
| src/components/agility-components/MenuBoard.tsx:104-107 | `acc[category]` reads the grouping record `{}`, which inherits from `Object.prototype`. A category named like an inherited property ("constructor", "toString", "__proto__", …) is truthy, so it is never replaced by `[]`, and `push` is not a function there: the board throws | one menu item whose category is named "constructor" | every item is filed under its category, whatever the category is called (an own-property check or a prototype-free record) | not executed | MenuBoard.GroupAsWritten, MenuBoard.InheritedCategoryThrows | MenuBoard.GroupByCategory, MenuBoard.AllItemsPermutation |
