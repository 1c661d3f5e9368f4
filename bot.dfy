/**
 * The bot's message handlers: the reply-keyboard dispatcher `handle_menu`,
 * the free-text search `handle_message`, the inline-button handler
 * `handle_inline_button`, the keyboards they show and how an event is
 * rendered as a card. Every Telegram call becomes a `Reply` value; a handler
 * returns the replies it sends, in order.
 */
module Bot {
  import opened Wrappers
  import opened Text
  import opened Seqs
  import opened Parser

  /** The one listing page every search reads. */
  const EventsUrl := "https://mgn.afishagoroda.ru/events"

  // The reply-keyboard buttons that `handle_menu` recognises literally.
  const SearchLabel := "Поиск мероприятий"
  const InfoLabel := "Информация о боте"
  const AllLabel := "Все мероприятия"
  const BackLabel := "Назад"

  /** The callback data of the back button under every event card. */
  const BackData := "back_to_events"

  const SearchPrompt := "Выберите категорию мероприятий:"
  const InfoText := "Этот бот помогает находить мероприятия в Магнитогорске."
  const MainPrompt := "Выберите опцию:"
  const NotFoundText := "Мероприятия не найдены."
  const NoPriceText := "Цена не указана"

  /** A reply keyboard, row by row. */
  type Keyboard = seq<seq<string>>

  /** `get_main_menu()` */
  const MainMenu: Keyboard := [[SearchLabel, InfoLabel]]

  /** `get_search_menu()` */
  const SearchMenu: Keyboard := [[AllLabel, "Балет"], ["Шоу", "Концерт"], ["Спектакль", BackLabel]]

  datatype InlineButton = UrlButton(text: string, url: string) | CallbackButton(text: string, data: string)

  /** `get_event_buttons(link)`: open the event's page, or go back to the categories. */
  function EventButtons(link: string): seq<seq<InlineButton>>
  {
    [[UrlButton("Перейти на сайт", link)], [CallbackButton(BackLabel, BackData)]]
  }

  /** What a handler sends. */
  datatype Reply =
    | ShowSearchMenu                               // reply_text(SearchPrompt) with the search keyboard
    | SendInfo                                     // reply_text(InfoText)
    | ShowMainMenu                                 // reply_text(MainPrompt) with the main keyboard
    | SendNotFound                                 // reply_text(NotFoundText)
    | SendCard(event: EventRecord, withPhoto: bool) // reply_photo if withPhoto, else reply_text; the event's caption and buttons
    | AnswerCallback                               // query.answer()
    | EditToSearchMenu                             // query.edit_message_text(SearchPrompt) with the search keyboard

  datatype Markup = NoMarkup | ReplyKeyboard(rows: Keyboard) | InlineKeyboard(buttons: seq<seq<InlineButton>>)

  /** The formatted price as the source writes it: `str(None)` when the event has no price. */
  function PriceAsWritten(price: Option<string>): string
  {
    match price
    case Some(p) => p
    case None => "None"
  }

  /** The formatted price as intended: the placeholder when the event has no price. */
  function PriceText(price: Option<string>): string
  {
    match price
    case Some(p) => p
    case None => NoPriceText
  }

  function CaptionHead(e: EventRecord): string
  {
    "<a href='" + e.link + "'>" + e.title + "</a>\nЦена: "
  }

  /** The card text exactly as the source formats it. */
  function CaptionAsWritten(e: EventRecord): string
  {
    CaptionHead(e) + PriceAsWritten(e.price)
  }

  /** The card text with the intended placeholder for a missing price. */
  function Caption(e: EventRecord): string
  {
    CaptionHead(e) + PriceText(e.price)
  }

  predicate EndsWith(s: string, suffix: string)
  {
    |suffix| <= |s| && s[|s| - |suffix|..] == suffix
  }

  /** The source's captions never show the placeholder for an event without a price: they end in "None". */
  lemma CaptionAsWrittenShowsNone(e: EventRecord)
    requires e.price.None?
    ensures EndsWith(CaptionAsWritten(e), "Цена: None")
    ensures !EndsWith(CaptionAsWritten(e), NoPriceText)
    ensures CaptionAsWritten(e) != Caption(e)
  {
    var s := CaptionAsWritten(e);
    var n := |s|;
    assert s[n - 10..] == "Цена: None";
    assert s[n - 1] == 'e';
    var c := Caption(e);
    assert c[|c| - 1] == NoPriceText[|NoPriceText| - 1];
  }

  /** An intended caption ends with the price when there is one and with the placeholder otherwise. */
  lemma CaptionShowsPrice(e: EventRecord)
    ensures e.price.Some? ==> EndsWith(Caption(e), "Цена: " + e.price.value)
    ensures e.price.None? ==> EndsWith(Caption(e), "Цена: " + NoPriceText)
  {
    var head := CaptionHead(e);
    assert head == "<a href='" + e.link + "'>" + e.title + "</a>\n" + "Цена: ";
    var lead := "<a href='" + e.link + "'>" + e.title + "</a>\n";
    var tail := "Цена: " + PriceText(e.price);
    assert Caption(e) == lead + tail;
    assert Caption(e)[|Caption(e)| - |tail|..] == tail;
  }

  /** The text a reply sends (for a card: its caption). */
  function Message(r: Reply): string
  {
    match r
    case ShowSearchMenu => SearchPrompt
    case SendInfo => InfoText
    case ShowMainMenu => MainPrompt
    case SendNotFound => NotFoundText
    case SendCard(e, _) => Caption(e)
    case AnswerCallback => ""
    case EditToSearchMenu => SearchPrompt
  }

  /** The keyboard a reply carries. */
  function MarkupOf(r: Reply): Markup
  {
    match r
    case ShowSearchMenu => ReplyKeyboard(SearchMenu)
    case ShowMainMenu => ReplyKeyboard(MainMenu)
    case SendCard(e, _) => InlineKeyboard(EventButtons(e.link))
    case EditToSearchMenu => ReplyKeyboard(SearchMenu)
    case _ => NoMarkup
  }

  /** `if event['image_url']`: a present, non-empty image URL. */
  predicate HasImage(e: EventRecord)
  {
    e.imageUrl.Some? && e.imageUrl.value != ""
  }

  /**
   * The replies for the events to show: one card per event, in order, a
   * photo when the event has an image and sending the `k`-th photo
   * succeeds (`photoOk(k)`), otherwise text; "not found" when there is none.
   */
  function Rendered(events: seq<EventRecord>, photoOk: nat -> bool): seq<Reply>
  {
    if events == [] then [SendNotFound]
    else seq(|events|, k requires 0 <= k < |events| => SendCard(events[k], HasImage(events[k]) && photoOk(k)))
  }

  /** The events the cards among `rs` show, in order. */
  function CardEvents(rs: seq<Reply>): seq<EventRecord>
  {
    if rs == [] then []
    else (if rs[0].SendCard? then [rs[0].event] else []) + CardEvents(rs[1..])
  }

  /**
   * Rendering shows every event exactly once and in order; "not found" is
   * sent exactly when there are no events, and then alone; a card is a photo
   * exactly when the event has an image and the photo went through.
   */
  lemma {:induction false} RenderedShowsEvents(events: seq<EventRecord>, photoOk: nat -> bool)
    ensures CardEvents(Rendered(events, photoOk)) == events
    ensures events == [] <==> SendNotFound in Rendered(events, photoOk)
    ensures events == [] ==> Rendered(events, photoOk) == [SendNotFound]
    ensures events != [] ==> |Rendered(events, photoOk)| == |events|
    ensures forall k :: 0 <= k < |events| ==>
              Rendered(events, photoOk)[k] == SendCard(events[k], HasImage(events[k]) && photoOk(k))
  {
    if events != [] {
      CardsShowEvents(Rendered(events, photoOk), events);
    }
  }

  lemma {:induction false} CardsShowEvents(rs: seq<Reply>, events: seq<EventRecord>)
    requires |rs| == |events|
    requires forall k :: 0 <= k < |rs| ==> rs[k].SendCard? && rs[k].event == events[k]
    ensures CardEvents(rs) == events
    ensures SendNotFound !in rs
  {
    if rs != [] {
      CardsShowEvents(rs[1..], events[1..]);
      assert [events[0]] + events[1..] == events;
    }
  }

  /** Whether the title of `e`, lower-cased, contains the lower-cased category. */
  function MatchesCategory(category: string, lower: string -> string): EventRecord -> bool
  {
    (e: EventRecord) => Contains(lower(e.title), category)
  }

  /**
   * The comprehension `[event for event in events if category in event['title'].lower()]`:
   * exactly the events whose lower-cased title contains `category`.
   */
  function CategoryFilter(events: seq<EventRecord>, category: string, lower: string -> string): (r: seq<EventRecord>)
    ensures |r| <= |events|
    ensures forall e :: e in r <==> e in events && Contains(lower(e.title), category)
  {
    FilterMembers(events, MatchesCategory(category, lower));
    Filter(events, MatchesCategory(category, lower))
  }

  /** The filtered events are a subsequence of the parsed ones: original order, nothing matching left out. */
  lemma CategoryFilterSubsequence(events: seq<EventRecord>, category: string, lower: string -> string)
    ensures var r := CategoryFilter(events, category, lower);
            var idx := Positions(events, MatchesCategory(category, lower));
            && |idx| == |r|
            && (forall k :: 0 <= k < |idx| ==> idx[k] < |events| && events[idx[k]] == r[k])
            && (forall k, l :: 0 <= k < l < |idx| ==> idx[k] < idx[l])
            && (forall j :: 0 <= j < |events| ==> (j in idx <==> Contains(lower(events[j].title), category)))
  {
    FilterAtPositions(events, MatchesCategory(category, lower));
    PositionsComplete(events, MatchesCategory(category, lower));
  }

  /** Filtering the filtered events again by the same category changes nothing. */
  lemma CategoryFilterIdempotent(events: seq<EventRecord>, category: string, lower: string -> string)
    ensures CategoryFilter(CategoryFilter(events, category, lower), category, lower)
         == CategoryFilter(events, category, lower)
  {
    FilterIdempotent(events, MatchesCategory(category, lower));
  }

  /** A category whose lower-cased form is empty keeps every event (`"" in s` always holds). */
  lemma CategoryFilterEmptyKeepsAll(events: seq<EventRecord>, lower: string -> string)
    ensures CategoryFilter(events, "", lower) == events
  {
    forall k | 0 <= k < |events|
      ensures MatchesCategory("", lower)(events[k])
    {
      assert [] <= lower(events[k].title);
    }
    FilterKeepsAll(events, MatchesCategory("", lower));
  }

  /** The texts `handle_menu` compares against before falling back to the category filter. */
  predicate IsMenuLabel(text: string)
  {
    text == SearchLabel || text == InfoLabel || text == AllLabel || text == BackLabel
  }

  /** The replies once the page has been parsed: nothing when parsing raised, otherwise the rendered events. */
  function EventReplies(parsed: Result<seq<EventRecord>, ParseError>, photoOk: nat -> bool): seq<Reply>
  {
    match parsed
    case Failure(_) => []
    case Success(events) => Rendered(events, photoOk)
  }

  /** The parsed events narrowed to a category; an exception passes through. */
  function Narrowed(parsed: Result<seq<EventRecord>, ParseError>, category: string, lower: string -> string)
    : Result<seq<EventRecord>, ParseError>
  {
    match parsed
    case Failure(err) => Failure(err)
    case Success(events) => Success(CategoryFilter(events, category, lower))
  }

  /** "Все мероприятия": once the page parses, the cards show every parsed event, unchanged and in order. */
  lemma AllEventsShown(page: seq<Element>, resolve: Resolver, photoOk: nat -> bool)
    requires Parse(EventsUrl, page, resolve).Success?
    ensures var events := Parse(EventsUrl, page, resolve).value;
            var replies := EventReplies(Parse(EventsUrl, page, resolve), photoOk);
            && CardEvents(replies) == events
            && (events == [] <==> replies == [SendNotFound])
  {
    RenderedShowsEvents(Parse(EventsUrl, page, resolve).value, photoOk);
  }

  /**
   * Any other text: once the page parses, the cards show exactly the events whose
   * lower-cased title contains the lower-cased text, in page order, and "not found"
   * is the single reply exactly when there is none.
   */
  lemma MatchingEventsShown(text: string, page: seq<Element>, resolve: Resolver, lower: string -> string,
                            photoOk: nat -> bool)
    requires Parse(EventsUrl, page, resolve).Success?
    ensures var matching := CategoryFilter(Parse(EventsUrl, page, resolve).value, lower(text), lower);
            var replies := EventReplies(Narrowed(Parse(EventsUrl, page, resolve), lower(text), lower), photoOk);
            && CardEvents(replies) == matching
            && (forall e :: e in CardEvents(replies) <==>
                  e in Parse(EventsUrl, page, resolve).value && Contains(lower(e.title), lower(text)))
            && (matching == [] <==> replies == [SendNotFound])
  {
    RenderedShowsEvents(CategoryFilter(Parse(EventsUrl, page, resolve).value, lower(text), lower), photoOk);
  }

  /**
   * Send a card for each event in turn, trying a photo first when the event
   * has an image and falling back to text when the photo fails; "not found"
   * when there are no events.
   */
  method SendEvents(events: seq<EventRecord>, photoOk: nat -> bool) returns (sent: seq<Reply>)
    ensures sent == Rendered(events, photoOk)
  {
    if events == [] {
      return [SendNotFound];
    }
    sent := [];
    for i := 0 to |events|
      invariant |sent| == i
      invariant forall k :: 0 <= k < i ==> sent[k] == SendCard(events[k], HasImage(events[k]) && photoOk(k))
    {
      var event := events[i];
      var card;
      if HasImage(event) {
        if photoOk(i) {
          card := SendCard(event, true);
        } else {
          card := SendCard(event, false);
        }
      } else {
        card := SendCard(event, false);
      }
      sent := sent + [card];
    }
  }

  /**
   * `handle_menu`: the four button labels are compared first, in order; any
   * other text is a category, lower-cased and matched against the titles of
   * the events on the page. `page` holds the page's event elements, `resolve`
   * is `urljoin`, `lower` is `str.lower` and `photoOk(k)` says whether the
   * `k`-th photo is delivered.
   */
  method HandleMenu(text: string, page: seq<Element>, resolve: Resolver, lower: string -> string,
                    photoOk: nat -> bool)
    returns (replies: seq<Reply>)
    ensures text == SearchLabel ==> replies == [ShowSearchMenu]
    ensures text == InfoLabel ==> replies == [SendInfo]
    ensures text == AllLabel ==> replies == EventReplies(Parse(EventsUrl, page, resolve), photoOk)
    ensures text == BackLabel ==> replies == [ShowMainMenu]
    ensures !IsMenuLabel(text) ==>
              replies == EventReplies(Narrowed(Parse(EventsUrl, page, resolve), lower(text), lower), photoOk)
  {
    replies := [];
    if text == SearchLabel {
      replies := replies + [ShowSearchMenu];
    } else if text == InfoLabel {
      replies := replies + [SendInfo];
    } else if text == AllLabel {
      var parsed := ParseEvents(EventsUrl, page, resolve);
      if parsed.Success? {
        var sent := SendEvents(parsed.value, photoOk);
        replies := replies + sent;
      }
    } else if text == BackLabel {
      replies := replies + [ShowMainMenu];
    } else {
      var category := lower(text);
      var parsed := ParseEvents(EventsUrl, page, resolve);
      if parsed.Success? {
        var filtered := CategoryFilter(parsed.value, category, lower);
        var sent := SendEvents(filtered, photoOk);
        replies := replies + sent;
      }
    }
  }

  /**
   * `handle_message`: every text is a search, with the same filter and
   * rendering as `handle_menu` uses for text that is not a button label.
   */
  method HandleMessage(text: string, page: seq<Element>, resolve: Resolver, lower: string -> string,
                       photoOk: nat -> bool)
    returns (replies: seq<Reply>)
    ensures replies == EventReplies(Narrowed(Parse(EventsUrl, page, resolve), lower(text), lower), photoOk)
    ensures forall r :: r in replies ==> r.SendCard? || r == SendNotFound
  {
    var parsed := ParseEvents(EventsUrl, page, resolve);
    replies := [];
    if parsed.Success? {
      var filtered := CategoryFilter(parsed.value, lower(text), lower);
      replies := SendEvents(filtered, photoOk);
    }
  }

  /** `handle_inline_button`: always answers the query; only the back button re-shows the categories. */
  function HandleInlineButton(data: string): (r: seq<Reply>)
    ensures |r| >= 1 && r[0] == AnswerCallback
    ensures EditToSearchMenu in r <==> data == BackData
    ensures forall x :: x in r ==> x == AnswerCallback || x == EditToSearchMenu
  {
    if data == BackData then [AnswerCallback, EditToSearchMenu] else [AnswerCallback]
  }

  /**
   * Every card carries a link to exactly its event's page and a back button
   * whose callback brings the category keyboard back, with the same prompt
   * the "Поиск мероприятий" button shows.
   */
  lemma CardButtonsWork(e: EventRecord, withPhoto: bool)
    ensures MarkupOf(SendCard(e, withPhoto)).InlineKeyboard?
    ensures forall row, b :: row in MarkupOf(SendCard(e, withPhoto)).buttons && b in row ==>
              (b.UrlButton? ==> b.url == e.link) &&
              (b.CallbackButton? ==> HandleInlineButton(b.data) == [AnswerCallback, EditToSearchMenu])
    ensures Message(EditToSearchMenu) == Message(ShowSearchMenu) && MarkupOf(EditToSearchMenu) == MarkupOf(ShowSearchMenu)
  {
  }

  /** A photo card and its text fallback carry the same caption and the same buttons. */
  lemma FallbackKeepsContent(e: EventRecord)
    ensures Message(SendCard(e, true)) == Message(SendCard(e, false)) == Caption(e)
    ensures MarkupOf(SendCard(e, true)) == MarkupOf(SendCard(e, false)) == InlineKeyboard(EventButtons(e.link))
  {
  }

  /**
   * Of the keyboard buttons, those of the main menu and "Все мероприятия" and
   * "Назад" are matched literally; the other category buttons reach the filter.
   */
  lemma KeyboardLabels()
    ensures forall row, name :: row in MainMenu && name in row ==> name == SearchLabel || name == InfoLabel
    ensures forall row, name :: row in SearchMenu && name in row ==>
              name == AllLabel || name == BackLabel || !IsMenuLabel(name)
  {
  }
}
