/** The closed set of event categories and the display metadata table that
    maps every category to its label, style classes and default time window. */
module EventCategories {
  import opened Wrappers

  datatype EventCategory = TalleresDeTarde | Comida | Cena | VisitaTuristica

  /** The categories in their declared order. */
  const EVENT_CATEGORIES: seq<EventCategory> := [TalleresDeTarde, Comida, Cena, VisitaTuristica]

  /** The string literal that stands for each category in the
      `EventCategory` union type. */
  function Name(c: EventCategory): string
  {
    match c
    case TalleresDeTarde => "Talleres de tarde"
    case Comida => "Comida"
    case Cena => "Cena"
    case VisitaTuristica => "Visita tur\U{ed}stica"
  }

  /** The category a string literal denotes, if any. */
  function FromName(s: string): (r: Option<EventCategory>)
    ensures r.Some? ==> Name(r.value) == s
    ensures r.None? ==> forall c: EventCategory :: Name(c) != s
  {
    if s == "Talleres de tarde" then Some(TalleresDeTarde)
    else if s == "Comida" then Some(Comida)
    else if s == "Cena" then Some(Cena)
    else if s == "Visita tur\U{ed}stica" then Some(VisitaTuristica)
    else None
  }

  lemma NameRoundTrip(c: EventCategory)
    ensures FromName(Name(c)) == Some(c)
  {
  }

  /** Exactly four categories, each listed once, in the declared order. */
  lemma CategoriesEnumerated()
    ensures |EVENT_CATEGORIES| == 4
    ensures forall c: EventCategory :: c in EVENT_CATEGORIES
    ensures forall i, j :: 0 <= i < j < |EVENT_CATEGORIES| ==> EVENT_CATEGORIES[i] != EVENT_CATEGORIES[j]
    ensures Name(EVENT_CATEGORIES[0]) == "Talleres de tarde" && Name(EVENT_CATEGORIES[1]) == "Comida"
    ensures Name(EVENT_CATEGORIES[2]) == "Cena" && Name(EVENT_CATEGORIES[3]) == "Visita tur\U{ed}stica"
  {
    forall c: EventCategory ensures c in EVENT_CATEGORIES {
      match c
      case TalleresDeTarde => assert EVENT_CATEGORIES[0] == c;
      case Comida => assert EVENT_CATEGORIES[1] == c;
      case Cena => assert EVENT_CATEGORIES[2] == c;
      case VisitaTuristica => assert EVENT_CATEGORIES[3] == c;
    }
  }

  /** `labelText` is the `label` field of `EVENT_CATEGORY_META` (`label` is a
      Dafny keyword). */
  datatype EventCategoryMeta = EventCategoryMeta(
    labelText: string,
    dotClass: string,
    cardClass: string,
    startTime: string,
    endTime: string)

  /** The value of a decimal digit character. */
  function DigitValue(ch: char): (r: Option<nat>)
    ensures r.Some? <==> '0' <= ch <= '9'
    ensures r.Some? ==> r.value < 10
  {
    if '0' <= ch <= '9' then Some(ch as nat - '0' as nat) else None
  }

  /** Minutes since midnight of an "HH:MM" time of day. */
  function ClockMinutes(s: string): (r: Option<nat>)
    ensures r.Some? ==> |s| == 5 && s[2] == ':' && r.value < 24 * 60
  {
    if |s| != 5 || s[2] != ':' then None
    else match (DigitValue(s[0]), DigitValue(s[1]), DigitValue(s[3]), DigitValue(s[4]))
      case (Some(h1), Some(h0), Some(m1), Some(m0)) =>
        var h, m := 10 * h1 + h0, 10 * m1 + m0;
        if h < 24 && m < 60 then Some(60 * h + m) else None
      case _ => None
  }

  /** The metadata table, total over the categories. */
  function Meta(c: EventCategory): (m: EventCategoryMeta)
    ensures m.labelText == Name(c)
    ensures ClockMinutes(m.startTime).Some? && ClockMinutes(m.endTime).Some?
    ensures ClockMinutes(m.startTime).value < ClockMinutes(m.endTime).value
  {
    match c
    case TalleresDeTarde =>
      EventCategoryMeta("Talleres de tarde", "bg-category-1",
        "bg-category-1/15 text-category-1 border-category-1/30", "16:00", "18:00")
    case Comida =>
      EventCategoryMeta("Comida", "bg-category-2",
        "bg-category-2/15 text-category-2 border-category-2/30", "13:00", "14:30")
    case Cena =>
      EventCategoryMeta("Cena", "bg-category-3",
        "bg-category-3/15 text-category-3 border-category-3/30", "20:00", "21:30")
    case VisitaTuristica =>
      EventCategoryMeta("Visita tur\U{ed}stica", "bg-category-4",
        "bg-category-4/15 text-category-4 border-category-4/30", "10:00", "12:00")
  }

  /** No two categories share a dot style, nor a name. */
  lemma MetaDistinguishesCategories(c1: EventCategory, c2: EventCategory)
    requires c1 != c2
    ensures Meta(c1).dotClass != Meta(c2).dotClass
    ensures Name(c1) != Name(c2)
  {
  }
}
