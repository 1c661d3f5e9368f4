# DiplomBot event search, modelled in Dafny

DiplomBot is a small Telegram bot. It scrapes one event-listing page (`https://mgn.afishagoroda.ru/events`) and replies to menu buttons and free text with event cards. This project models its two pieces of logic:

- **Listing extraction** (`parse_events`, module `Parser`, file `parser.dfy`). The page comes in as the sequence of its `div.events-elem` elements, in document order. Each element keeps the first title anchor, date block, price block and image found inside it; any of these may be absent. The extractor loops over the elements. It keeps an element only when both its title anchor and its date block are present, and builds a record from its stripped texts and resolved URLs. It raises `KeyError` when a kept element's anchor has no `href`, or when its image has no `src`.
- **Message dispatch** (`handle_menu`, `handle_message`, `handle_inline_button`, the two keyboards and card rendering; module `Bot`, file `bot.dfy`). Incoming text is first compared with the four button labels, in order. Any other text is lower-cased and used as a category: the result is the events whose lower-cased title contains it. Each selected event gets exactly one card. A card is a photo when the event has an image and the photo gets through; otherwise it is a text message with the same caption and buttons. When there are no events, the only reply is "Мероприятия не найдены.". If the page raises while it is parsed, the handler sends nothing.

Supporting modules:
- `Wrappers`: `Option` and `Result`.
- `Seqs`: the list comprehension `[x for x in s if p(x)]` as `Filter`, with its selected `Positions`.
- `Text`: Python's `str.strip()` over CPython's whitespace set, and the substring test `needle in hay`.

The model has four inputs, all passed as parameters. `urljoin` is a function parameter `resolve`. `str.lower` is a function parameter `lower`. Fetching and HTML parsing are replaced by the element sequence `page`. Whether the `k`-th photo send succeeds is the oracle `photoOk(k)`.

Behaviour of the code worth knowing:
- An element is kept only when it has both its title anchor and its date block. A title is not guaranteed to be non-empty: a whitespace-only anchor strips to `""`.
- The link is absolute only if `urljoin` makes it so.
- "Все мероприятия" is a button matched literally and renders every event; the filter has no special token.
- Duplicates are not removed.
- The bot keeps no per-user state and reads one hard-coded URL. There is no city choice and no fetch timeout.
- A missing `href` or `src` on a kept element is not skipped. It raises and ends the whole extraction.
- `handle_message` is registered after `handle_menu` with the same filter in the same handler group, so it never runs. It is modelled anyway. Its contract equals `handle_menu`'s contract for every text that is not a button label.

## Model

| member | source | states |
|---|---|---|
| Seqs.Filter | app/main.py:87 | The comprehension keeps at most as many elements as it is given |
| Seqs.FilterMembers | app/main.py:87 | An element is in the output exactly when it is in the input and satisfies the predicate |
| Seqs.FilterIdempotent | app/main.py:87 | Filtering the output again with the same predicate returns it unchanged |
| Seqs.FilterKeepsAll | app/main.py:87 | When every element satisfies the predicate, the output is the input, unchanged and in order |
| Seqs.FilterAtPositions | app/main.py:87 | The output is the input read at strictly increasing positions, one per output element, so it is an order-preserving subsequence |
| Seqs.PositionsComplete | app/main.py:87 | A position is selected exactly when its element satisfies the predicate, so nothing that matches is dropped |
| Text.TrimStartIsSuffix | app/parser.py:24 | Trimming the start leaves a suffix of the text, everything removed is whitespace, and the rest does not start with whitespace |
| Text.TrimEndIsPrefix | app/parser.py:24 | Trimming the end leaves a prefix of the text, everything removed is whitespace, and the rest does not end with whitespace |
| Text.StripIsSlice | app/parser.py:24 | The stripped text is one contiguous slice of the input with only whitespace outside it, and neither end of it is whitespace |
| Text.ContainsIffOccurs | app/main.py:87 | The substring scan succeeds exactly when the needle occurs at some position of the haystack; this holds in both directions, and the empty needle always matches |
| Parser.RecordIsRecordOf | app/parser.py:24-29 | A kept element with all its attributes yields its record: stripped title, date and price; link resolved from the title anchor's own `href`; image URL resolved from `src`; price and image are None exactly when the tag is absent |
| Parser.ParseEvents | app/parser.py:5-33 | The extraction loop returns the specified result; an empty element list gives the empty list; on success there is at most one record per element |
| Parser.ConcatEmpty | app/parser.py:30-31 | An iteration that appends nothing leaves the outcome of the rest unchanged |
| Parser.ConcatAssoc | app/parser.py:16-29 | Joining contributions is associative: the first exception still wins and the records stay in order |
| Parser.ParseAppend | app/parser.py:16-31 | Extracting a concatenation is extracting the two halves in order: the first exception wins, otherwise the record lists are joined |
| Parser.ParseSnoc | app/parser.py:16-29 | One more element adds its own contribution after the records so far |
| Parser.Extends | app/parser.py:16-29 | The outcome after the element at a position is the outcome before it joined with that element's contribution |
| Parser.RaisesAt | app/parser.py:26-28 | When the elements before a position extract cleanly and the element there raises, the whole extraction raises that error |
| Parser.ParsePrefixFails | app/parser.py:26-28 | Once an element raises, the elements after it cannot change the outcome |
| Parser.ParseFailsIff | app/parser.py:23-28 | Extraction succeeds exactly when every kept element has its anchor's `href` and, if it has an image, that image's `src`; the only errors the model raises are `KeyError('href')` and `KeyError('src')` |
| Parser.ParseBuildsKept | app/parser.py:23-29 | On success, the records correspond one to one and in document order with the elements that have both a title anchor and a date block; each record is built from the matching element |
| Parser.BuiltCons | app/parser.py:29 | The alignment of kept elements and records holds again after a kept element and its record are put in front |
| Parser.ParseRecordsOfKept | app/parser.py:23-29 | On success, each record's fields come from the tags of the kept element at its position, as the record relation describes |
| Parser.ParseRecordsComplete | app/parser.py:23 | Every record comes from an element of the page that had both its title anchor and its date block; no partial record is emitted |
| Parser.ParseSkipsIncomplete | app/parser.py:30-31 | Inserting an element that lacks its title anchor or date block anywhere leaves the outcome unchanged |
| Parser.ParseKeepsDuplicates | app/parser.py:16 | Records are not de-duplicated: a page repeated twice yields its records twice, in order |
| Bot.CaptionAsWrittenShowsNone | app/main.py:68 | As written, a card for an event without a price ends in "Цена: None", never in the placeholder, and differs from the intended caption |
| Bot.CaptionShowsPrice | app/main.py:68 | The intended caption ends in "Цена: " followed by the price, or by "Цена не указана" when the event has no price |
| Bot.RenderedShowsEvents | app/main.py:66-81 | Rendering sends one card per event, in order, and shows every event exactly once; "not found" is sent exactly when there are no events, and is then the only reply; a card is a photo exactly when the event has an image and that photo was delivered |
| Bot.CardsShowEvents | app/main.py:67-79 | A reply list made only of cards shows their events in order and holds no "not found" |
| Bot.CategoryFilter | app/main.py:87 | The filtered events are exactly those parsed events whose lower-cased title contains the category, and there are no more of them than parsed events |
| Bot.CategoryFilterSubsequence | app/main.py:87 | The filtered events are the parsed ones read at strictly increasing positions, and a position is selected exactly when its title matches |
| Bot.CategoryFilterIdempotent | app/main.py:87 | Filtering the filtered events again by the same category changes nothing |
| Bot.CategoryFilterEmptyKeepsAll | app/main.py:87 | An empty category keeps every event, because the empty string is contained in any title |
| Bot.AllEventsShown | app/main.py:64-81 | For "Все мероприятия", once the page parses, the cards show every parsed event unchanged and in order, and the only reply is "not found" exactly when the page has none |
| Bot.MatchingEventsShown | app/main.py:84-103 | For any other text, once the page parses, the cards show exactly the matching events in page order, and the only reply is "not found" exactly when none match |
| Bot.SendEvents | app/main.py:88-103 | The per-event loop sends exactly the rendered replies: photo first when the event has an image, text when the photo fails or there is no image, and "not found" for no events |
| Bot.HandleMenu | app/main.py:57-103 | The four labels are checked first, and an exact match never reaches the filter. "Поиск мероприятий" shows only the category keyboard, "Информация о боте" only the info text, and "Назад" only the main keyboard. "Все мероприятия" renders the parsed events. Any other text renders the events matching its lower-cased form. Nothing is sent when parsing raises |
| Bot.HandleMessage | app/main.py:107-127 | Every text is a search, with the same filter and rendering `handle_menu` applies to non-label text; only cards and "not found" are sent |
| Bot.HandleInlineButton | app/main.py:131-136 | The query is always answered first; the category keyboard is shown again exactly when the callback data is "back_to_events"; nothing else is sent |
| Bot.CardButtonsWork | app/main.py:41-47 | Every card's link button points to its own event's link; its back button's callback re-shows the category keyboard with the same prompt the search button shows |
| Bot.FallbackKeepsContent | app/main.py:69-79 | A photo card and its text fallback carry the same caption and the same inline buttons |
| Bot.KeyboardLabels | app/main.py:19-37 | The main-keyboard buttons are both matched literally; the search-keyboard buttons other than "Все мероприятия" and "Назад" are not labels, so they go to the category filter |

## Left out

- Fetching the page with `requests.get` (app/parser.py:6): network I/O. The page's event elements are an input, and a failing fetch is not modelled.
- HTML parsing with BeautifulSoup (app/parser.py:7-10, 17-21): a foreign library. Each element is reduced to the first matching tag of each kind, and a tag's `.text` is taken as given.
- `urljoin` (app/parser.py:26, 28): it is the parameter `resolve`. Whether the resulting URLs are absolute is not modelled. `resolve` is total: a `ValueError` that urljoin raises on a malformed host (an unbalanced `[` in an `href` or `src`) is not modelled, so `ParseFailsIff` and `HandleMenu` do not cover that path, on which the handler sends nothing.
- `str.lower` (app/main.py:85, 87, 110): it is the parameter `lower`; Unicode case mapping is not modelled.
- Telegram transport (app/main.py:61-136): sending, keyboards, HTML parse mode and async/await. Replies are `Reply` values, and a delivery failure other than the photo fallback is not modelled.
- The `start` command (app/main.py:51-53): a constant greeting with the main keyboard, outside the modelled handlers.
- Handler registration and polling (app/main.py:139-150): configuration. So are the token loading, logging, the console messages of `parse_events` and the Windows event-loop policy (app/main.py:10-15).
- The script entry point of app/parser.py:35-41: a manual console run.
- Editing a card back to the category keyboard (app/main.py:136): `EditToSearchMenu` records the call `edit_message_text` with the search keyboard. The model does not capture whether Telegram accepts that edit; the markup passed is a reply keyboard, not an inline one, and a photo card has a caption rather than text to edit.
- The caption text of cards follows the corrected `Caption`, not the as-written `CaptionAsWritten` (see Findings).

## Findings

| source | as written | input that shows it | evidently intended | confidence | as-written member | corrected member |
|---|---|---|---|---|---|---|
| app/main.py:68 | `event.get('price', 'Цена не указана')` never uses its default, because `parse_events` always stores a `price` key (app/parser.py:27-29), set to `None` when there is no price; the caption then reads "Цена: None" | any event element without a `div.price` block | the placeholder "Цена не указана" when the price is missing | high, not executed | Bot.CaptionAsWritten, exhibited by Bot.CaptionAsWrittenShowsNone | Bot.Caption, proved by Bot.CaptionShowsPrice |
