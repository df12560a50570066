/** The emoji catalog of the planner's picker (script.js): the records built
    from the downloaded dataset, the category table, and `loadEmojis`, which
    selects what the picker shows for a category and a search term. */
module Catalog {
  import opened Strings
  import opened Seqs

  /** One entry of the downloaded dataset: the natives of its skins, its
      human-readable category, its name and its keywords. */
  datatype RawEmoji = RawEmoji(skins: seq<string>, category: string, name: string, keywords: seq<string>)

  /** One catalog record (`{char, category, name, keywords}`; `char` is called `glyph` here). A record whose
      dataset entry had no `keywords` is modelled with `keywords == []`: the
      search treats the two alike. */
  datatype EmojiRecord = EmojiRecord(glyph: string, category: string, name: string, keywords: seq<string>)

  /** One row of the category selector. */
  datatype Category = Category(id: string, name: string)

  const RecentId: string := "recent"

  /** The category selector's table, in display order. */
  const Categories: seq<Category> := [
    Category("recent", "Recent"),
    Category("smileys-emotion", "Smileys & Emotion"),
    Category("people-body", "People & Body"),
    Category("animals-nature", "Animals & Nature"),
    Category("food-drink", "Food & Drink"),
    Category("travel-places", "Travel & Places"),
    Category("activities", "Activities"),
    Category("objects", "Objects"),
    Category("symbols", "Symbols"),
    Category("flags", "Flags")
  ]

  /** The dataset's category string turned into a category id: lower-cased,
      then every " & " replaced by "-", then every remaining space by "-". */
  function NormalizeCategory(raw: string): (id: string)
    ensures ' ' !in id
  {
    ReplaceChar(ReplaceAll(Lower(raw), " & ", "-"), ' ', '-')
  }

  /** A category id contains no space and no upper-case letter. */
  lemma NormalizeCategoryShape(raw: string)
    ensures ' ' !in NormalizeCategory(raw)
    ensures forall i :: 0 <= i < |NormalizeCategory(raw)| ==> !IsUpper(NormalizeCategory(raw)[i])
  {
    var joined := ReplaceAll(Lower(raw), " & ", "-");
    forall c | c in joined ensures !IsUpper(c) {
      ReplaceAllChars(Lower(raw), " & ", "-", c);
    }
  }

  /** Normalising an id again changes nothing. */
  lemma NormalizeIdempotent(raw: string)
    ensures NormalizeCategory(NormalizeCategory(raw)) == NormalizeCategory(raw)
  {
    var id := NormalizeCategory(raw);
    NormalizeCategoryShape(raw);
    LowerOfLower(id);
    ReplaceAllAbsent(id, " & ", "-");
    assert ReplaceChar(id, ' ', '-') == id;
  }

  /** A one-word category name normalises to its lower-case form. */
  lemma NormalizeWord(w: string, id: string)
    requires ' ' !in w && Lower(w) == id
    ensures NormalizeCategory(w) == id
  {
    assert ' ' !in id;
    ReplaceAllAbsent(id, " & ", "-");
    assert ReplaceChar(id, ' ', '-') == id;
  }

  /** A two-word category name "A & B" normalises to "a-b". */
  lemma NormalizePair(name: string, a: string, b: string, id: string)
    requires ' ' !in a && ' ' !in b && name == a + " & " + b
    requires id == Lower(a) + "-" + Lower(b)
    ensures NormalizeCategory(name) == id
  {
    LowerAppend(a + " & ", b);
    LowerAppend(a, " & ");
    assert Lower(" & ") == " & ";
    var la, lb := Lower(a), Lower(b);
    assert ' ' !in la && ' ' !in lb;
    ReplaceAllSkip(la, " & ", "-", lb);
    ReplaceAllAbsent(lb, " & ", "-");
    assert ' ' !in id;
    assert ReplaceChar(id, ' ', '-') == id;
  }

  /** The one-word rows of the category table normalise to their lower-case
      form. */
  lemma NormalizeOneWordRow(k: nat)
    requires k == 0 || 6 <= k < |Categories|
    ensures NormalizeCategory(Categories[k].name) == Categories[k].id
  {
    NormalizeWord(Categories[k].name, Categories[k].id);
  }

  /** The "A & B" rows, one lemma each: every one evaluates lower-casing on
      its own literals, and together they exceed the solver budget. */
  lemma NormalizeRow1(c: Category) requires c == Categories[1] ensures NormalizeCategory(c.name) == c.id { NormalizePair(c.name, "Smileys", "Emotion", c.id); }
  lemma NormalizeRow2(c: Category) requires c == Categories[2] ensures NormalizeCategory(c.name) == c.id { NormalizePair(c.name, "People", "Body", c.id); }
  lemma NormalizeRow3(c: Category) requires c == Categories[3] ensures NormalizeCategory(c.name) == c.id { NormalizePair(c.name, "Animals", "Nature", c.id); }
  lemma NormalizeRow4(c: Category) requires c == Categories[4] ensures NormalizeCategory(c.name) == c.id { NormalizePair(c.name, "Food", "Drink", c.id); }
  lemma NormalizeRow5(c: Category) requires c == Categories[5] ensures NormalizeCategory(c.name) == c.id { NormalizePair(c.name, "Travel", "Places", c.id); }

  /** Every display name of the category table normalises to its own id. */
  lemma NormalizeCategoryTable()
    ensures forall k :: 0 <= k < |Categories| ==> NormalizeCategory(Categories[k].name) == Categories[k].id
  {
    forall k | 0 <= k < |Categories|
      ensures NormalizeCategory(Categories[k].name) == Categories[k].id
    {
      if k == 1 {
        NormalizeRow1(Categories[k]);
      } else if k == 2 {
        NormalizeRow2(Categories[k]);
      } else if k == 3 {
        NormalizeRow3(Categories[k]);
      } else if k == 4 {
        NormalizeRow4(Categories[k]);
      } else if k == 5 {
        NormalizeRow5(Categories[k]);
      } else {
        NormalizeOneWordRow(k);
      }
    }
  }

  /** A dataset entry as a catalog record; `None` when the entry has no skin,
      where reading `skins[0].native` throws. */
  function ToRecord(raw: RawEmoji): (r: Option<EmojiRecord>)
    ensures r.None? <==> raw.skins == []
    ensures r.Some? ==> r.value.glyph == raw.skins[0] && r.value.name == raw.name && r.value.keywords == raw.keywords
    ensures r.Some? ==> r.value.category == NormalizeCategory(raw.category) && ' ' !in r.value.category
  {
    if raw.skins == [] then None
    else Some(EmojiRecord(raw.skins[0], NormalizeCategory(raw.category), raw.name, raw.keywords))
  }

  /** `Object.values(data.emojis).map(...)`: every entry converted in order,
      or `None` as soon as one conversion throws. */
  function MapRecords(raws: seq<RawEmoji>): (r: Option<seq<EmojiRecord>>)
    ensures r.Some? <==> forall i :: 0 <= i < |raws| ==> raws[i].skins != []
    ensures r.Some? ==> |r.value| == |raws|
    ensures r.Some? ==> forall i :: 0 <= i < |raws| ==> Some(r.value[i]) == ToRecord(raws[i])
  {
    if raws == [] then Some([])
    else match ToRecord(raws[0])
      case None => None
      case Some(rec) =>
        match MapRecords(raws[1..])
        case None => None
        case Some(rest) => Some([rec] + rest)
  }

  /** The catalog after the download: the converted entries, or the initial
      empty catalog when the conversion threw (the error is only logged). */
  function LoadCatalog(raws: seq<RawEmoji>): (catalog: seq<EmojiRecord>)
    ensures (exists i :: 0 <= i < |raws| && raws[i].skins == []) ==> catalog == []
    ensures (forall i :: 0 <= i < |raws| ==> raws[i].skins != []) ==>
      |catalog| == |raws| &&
      forall i :: 0 <= i < |raws| ==>
        catalog[i] == EmojiRecord(raws[i].skins[0], NormalizeCategory(raws[i].category), raws[i].name, raws[i].keywords)
  {
    match MapRecords(raws)
    case Some(records) => records
    case None => []
  }

  /** No category id of a loaded catalog contains a space. */
  lemma CatalogIdsHaveNoSpace(raws: seq<RawEmoji>)
    ensures forall rec :: rec in LoadCatalog(raws) ==> ' ' !in rec.category
  {
    var catalog := LoadCatalog(raws);
    forall rec | rec in catalog ensures ' ' !in rec.category {
      var i :| 0 <= i < |catalog| && catalog[i] == rec;
      NormalizeCategoryShape(raws[i].category);
    }
  }

  /** What `loadEmojis` works on: a full catalog record, or an entry of the
      recent list, which carries only its glyph (`{char}`). */
  datatype Entry = Record(rec: EmojiRecord) | RecentGlyph(glyph: string)

  function GlyphOf(e: Entry): string {
    match e
    case Record(rec) => rec.glyph
    case RecentGlyph(g) => g
  }

  /** The search callback reads `name` of every entry it sees; a recent entry
      has none, and `undefined.toLowerCase()` throws a TypeError. */
  datatype LoadError = NameMissing

  /** What the picker shows: the "No emojis found." message, or glyphs. */
  datatype View = NoEmojisFound | Glyphs(glyphs: seq<string>)

  /** `emojiData.filter(emoji => emoji.category === categoryId)`. */
  function CategoryFilter(catalog: seq<EmojiRecord>, id: string): (r: seq<EmojiRecord>)
    ensures forall x :: x in r <==> x in catalog && x.category == id
    ensures forall x :: multiset(r)[x] == if x.category == id then multiset(catalog)[x] else 0
    ensures SubsequenceOf(r, catalog)
  {
    forall x ensures multiset(Keep(catalog, InCategory(id)))[x] == if x.category == id then multiset(catalog)[x] else 0 {
      KeepCount(catalog, InCategory(id), x);
    }
    Keep(catalog, InCategory(id))
  }

  function InCategory(id: string): EmojiRecord -> bool {
    (rec: EmojiRecord) => rec.category == id
  }

  /** The search test of one catalog record against the lower-cased term:
      the lower-cased name contains it, or some keyword, as it is, does. */
  function Matches(rec: EmojiRecord, term: string): (b: bool)
    ensures term == "" ==> b
    ensures b ==> |term| <= |rec.name| || exists k | k in rec.keywords :: |term| <= |k|
  {
    Includes(Lower(rec.name), term) || exists k | k in rec.keywords :: Includes(k, term)
  }

  function Matching(term: string): EmojiRecord -> bool {
    (rec: EmojiRecord) => Matches(rec, term)
  }

  /** The entries a search keeps: matching catalog records. */
  function Hit(term: string): Entry -> bool {
    (e: Entry) => e.Record? && Matches(e.rec, term)
  }

  /** `emojisToLoad.filter(...)` with a lower-cased term: the matching
      entries in order, or the TypeError raised by the first recent entry. */
  function Search(es: seq<Entry>, term: string): (r: Result<seq<Entry>, LoadError>)
    ensures r.Failure? <==> exists i :: 0 <= i < |es| && es[i].RecentGlyph?
    ensures r.Success? ==> r.value == Keep(es, Hit(term))
  {
    if es == [] then Success([])
    else
      assert es == [es[0]] + es[1..];
      KeepCons(es[0], es[1..], Hit(term));
      match es[0]
      case RecentGlyph(_) => Failure(NameMissing)
      case Record(rec) =>
        match Search(es[1..], term)
        case Failure(err) => Failure(err)
        case Success(rest) => Success(if Matches(rec, term) then [es[0]] + rest else rest)
  }

  function AsRecords(records: seq<EmojiRecord>): seq<Entry> {
    seq(|records|, i requires 0 <= i < |records| => Record(records[i]))
  }

  function AsRecent(recent: seq<string>): seq<Entry> {
    seq(|recent|, i requires 0 <= i < |recent| => RecentGlyph(recent[i]))
  }

  /** The list `loadEmojis` starts from: the recent list for the synthetic
      "recent" id, the records of the category otherwise. */
  function Candidates(catalog: seq<EmojiRecord>, recent: seq<string>, categoryId: string): (r: seq<Entry>)
    ensures categoryId == RecentId ==> |r| == |recent| && forall i :: 0 <= i < |r| ==> r[i] == RecentGlyph(recent[i])
    ensures categoryId != RecentId ==>
      |r| == |CategoryFilter(catalog, categoryId)| &&
      forall i :: 0 <= i < |r| ==> r[i] == Record(CategoryFilter(catalog, categoryId)[i])
    ensures categoryId != RecentId ==> forall e :: e in r ==> e.Record? && e.rec in catalog && e.rec.category == categoryId
  {
    if categoryId == RecentId then AsRecent(recent) else AsRecords(CategoryFilter(catalog, categoryId))
  }

  function Render(es: seq<Entry>): (v: View)
    ensures v == NoEmojisFound <==> es == []
    ensures v.Glyphs? ==> |v.glyphs| == |es| && forall i :: 0 <= i < |es| ==> v.glyphs[i] == GlyphOf(es[i])
  {
    if es == [] then NoEmojisFound else Glyphs(seq(|es|, i requires 0 <= i < |es| => GlyphOf(es[i])))
  }

  /** `loadEmojis(categoryId, searchTerm)`; the term arrives trimmed, and
      the empty term means "no search". */
  function LoadEmojis(catalog: seq<EmojiRecord>, recent: seq<string>, categoryId: string, searchTerm: string): (r: Result<View, LoadError>)
    ensures r.Failure? <==> categoryId == RecentId && searchTerm != "" && recent != []
  {
    var candidates := Candidates(catalog, recent, categoryId);
    if searchTerm == "" then Success(Render(candidates))
    else
      match Search(candidates, Lower(searchTerm))
      case Failure(err) => Failure(err)
      case Success(found) => Success(Render(found))
  }

  /** The glyphs of a sequence of records, in order. */
  function GlyphsOf(records: seq<EmojiRecord>): seq<string> {
    seq(|records|, i requires 0 <= i < |records| => records[i].glyph)
  }

  /** What the picker shows for a list of records. */
  function Show(records: seq<EmojiRecord>): View {
    if records == [] then NoEmojisFound else Glyphs(GlyphsOf(records))
  }

  /** Without a search term the picker shows the recent list for "recent",
      and for any other id the records of that category in catalog order;
      an empty list shows the "No emojis found." message. */
  lemma LoadWithoutSearch(catalog: seq<EmojiRecord>, recent: seq<string>, categoryId: string)
    ensures categoryId == RecentId ==>
      LoadEmojis(catalog, recent, categoryId, "") == Success(if recent == [] then NoEmojisFound else Glyphs(recent))
    ensures categoryId != RecentId ==>
      LoadEmojis(catalog, recent, categoryId, "") == Success(Show(CategoryFilter(catalog, categoryId)))
  {
    if categoryId == RecentId {
      var es := AsRecent(recent);
      assert es == [] <==> recent == [];
      assert seq(|es|, i requires 0 <= i < |es| => GlyphOf(es[i])) == recent;
    } else {
      var records := CategoryFilter(catalog, categoryId);
      var es := AsRecords(records);
      assert es == [] <==> records == [];
      assert seq(|es|, i requires 0 <= i < |es| => GlyphOf(es[i])) == GlyphsOf(records);
    }
  }

  lemma AsRecordsCons(x: EmojiRecord, rs: seq<EmojiRecord>)
    ensures AsRecords([x] + rs) == [Record(x)] + AsRecords(rs)
  {
  }

  /** Searching catalog records never fails and keeps the matching ones. */
  lemma {:induction false} SearchRecords(records: seq<EmojiRecord>, term: string)
    ensures Search(AsRecords(records), term) == Success(AsRecords(Keep(records, Matching(term))))
  {
    if records != [] {
      var es := AsRecords(records);
      assert es[0] == Record(records[0]);
      assert es[1..] == AsRecords(records[1..]);
      SearchRecords(records[1..], term);
      assert records == [records[0]] + records[1..];
      KeepCons(records[0], records[1..], Matching(term));
      AsRecordsCons(records[0], Keep(records[1..], Matching(term)));
    }
  }

  /** A record the search in category `id` for `term` shows. */
  function Found(id: string, term: string): EmojiRecord -> bool {
    (rec: EmojiRecord) => rec.category == id && Matches(rec, term)
  }

  /** A search in an ordinary category shows exactly the catalog records of
      that category that match the lower-cased term, in catalog order. */
  lemma LoadSearchCategory(catalog: seq<EmojiRecord>, recent: seq<string>, categoryId: string, searchTerm: string)
    requires categoryId != RecentId && searchTerm != ""
    ensures LoadEmojis(catalog, recent, categoryId, searchTerm) == Success(Show(Keep(catalog, Found(categoryId, Lower(searchTerm)))))
  {
    var term := Lower(searchTerm);
    var records := CategoryFilter(catalog, categoryId);
    SearchRecords(records, term);
    KeepKeep(catalog, InCategory(categoryId), Matching(term), Found(categoryId, term));
    var kept := Keep(records, Matching(term));
    var es := AsRecords(kept);
    assert es == [] <==> kept == [];
    assert seq(|es|, i requires 0 <= i < |es| => GlyphOf(es[i])) == GlyphsOf(kept);
  }

  /** Recent entries have no name: searching the "recent" category throws
      as soon as the recent list has an entry, and shows the "No emojis
      found." message while it is empty. */
  lemma LoadSearchRecent(catalog: seq<EmojiRecord>, recent: seq<string>, searchTerm: string)
    requires searchTerm != ""
    ensures recent == [] ==> LoadEmojis(catalog, recent, RecentId, searchTerm) == Success(NoEmojisFound)
    ensures recent != [] ==> LoadEmojis(catalog, recent, RecentId, searchTerm) == Failure(NameMissing)
  {
    if recent != [] {
      assert AsRecent(recent)[0].RecentGlyph?;
    }
  }

  /** The search term's letter case does not matter. */
  lemma LoadTermCaseInsensitive(catalog: seq<EmojiRecord>, recent: seq<string>, categoryId: string, searchTerm: string)
    ensures LoadEmojis(catalog, recent, categoryId, Lower(searchTerm)) == LoadEmojis(catalog, recent, categoryId, searchTerm)
  {
    LowerIdempotent(searchTerm);
    assert |Lower(searchTerm)| == |searchTerm|;
  }

  /** A catalog of one record, searched in that record's category, shows
      the record exactly when it matches the lower-cased term. */
  lemma SearchSingleRecord(rec: EmojiRecord, recent: seq<string>, searchTerm: string)
    requires rec.category != RecentId && searchTerm != ""
    ensures LoadEmojis([rec], recent, rec.category, searchTerm)
         == Success(if Matches(rec, Lower(searchTerm)) then Glyphs([rec.glyph]) else NoEmojisFound)
  {
    LoadSearchCategory([rec], recent, rec.category, searchTerm);
    KeepCons(rec, [], Found(rec.category, Lower(searchTerm)));
    assert [rec] + [] == [rec];
    assert GlyphsOf([rec]) == [rec.glyph];
  }

  /** A record matches a term that its lower-cased name contains. */
  lemma MatchByName(rec: EmojiRecord, term: string)
    requires Includes(Lower(rec.name), term)
    ensures Matches(rec, term)
  {
  }

  /** A record matches exactly when the term occurs somewhere in its
      lower-cased name or somewhere in one of its keywords. */
  lemma MatchesOccurrence(rec: EmojiRecord, term: string)
    ensures Matches(rec, term) <==>
      (exists i :: OccursAt(Lower(rec.name), term, i)) ||
      (exists k, i :: 0 <= k < |rec.keywords| && OccursAt(rec.keywords[k], term, i))
  {
    if exists k, i :: 0 <= k < |rec.keywords| && OccursAt(rec.keywords[k], term, i) {
      var k, i :| 0 <= k < |rec.keywords| && OccursAt(rec.keywords[k], term, i);
      assert Includes(rec.keywords[k], term);
      MatchByKeyword(rec, term, k);
    }
    if exists w | w in rec.keywords :: Includes(w, term) {
      var w :| w in rec.keywords && Includes(w, term);
      var k :| 0 <= k < |rec.keywords| && rec.keywords[k] == w;
      var i :| OccursAt(w, term, i);
      assert OccursAt(rec.keywords[k], term, i);
    }
  }

  /** A record matches a term that one of its keywords contains. */
  lemma MatchByKeyword(rec: EmojiRecord, term: string, k: nat)
    requires k < |rec.keywords| && Includes(rec.keywords[k], term)
    ensures Matches(rec, term)
  {
    assert rec.keywords[k] in rec.keywords;
  }

  /** A record does not match a term whose first character occurs neither in
      its lower-cased name nor in any of its keywords. */
  lemma NoMatchWithoutFirstChar(rec: EmojiRecord, term: string, lowered: string)
    requires Lower(rec.name) == lowered && |term| > 0 && term[0] !in lowered
    requires forall k :: k in rec.keywords ==> term[0] !in k
    ensures !Matches(rec, term)
  {
    IncludesFirstChar(lowered, term);
    forall k | k in rec.keywords ensures !Includes(k, term) {
      IncludesFirstChar(k, term);
    }
  }

  /** The name of the grinning face is already lower-case. */
  lemma GrinningFaceName(name: string)
    requires name == "grinning face"
    ensures Lower(name) == name && 's' !in name && 'z' !in name
  {
  }

  /** The grinning face example: a catalog holding only the record named
      "grinning face" with keywords "happy" and "smile" shows it when its
      category is searched for "smile" (one of its keywords)... */
  lemma GrinningFaceFound(grinning: EmojiRecord)
    requires grinning.name == "grinning face" && grinning.keywords == ["happy", "smile"]
    requires grinning.category == "smileys-emotion"
    ensures LoadEmojis([grinning], [], "smileys-emotion", "smile") == Success(Glyphs([grinning.glyph]))
  {
    SearchSingleRecord(grinning, [], "smile");
    assert Lower("smile") == "smile";
    assert StartsWith("smile", "smile");
    MatchByKeyword(grinning, "smile", 1);
  }

  /** ...and shows the "No emojis found." message for "zzz". */
  lemma GrinningFaceNotFound(grinning: EmojiRecord)
    requires grinning.name == "grinning face" && grinning.keywords == ["happy", "smile"]
    requires grinning.category == "smileys-emotion"
    ensures LoadEmojis([grinning], [], "smileys-emotion", "zzz") == Success(NoEmojisFound)
  {
    SearchSingleRecord(grinning, [], "zzz");
    assert Lower("zzz") == "zzz";
    assert forall k :: k in grinning.keywords ==> 'z' !in k by {
      assert 'z' !in "happy" && 'z' !in "smile";
    }
    GrinningFaceName(grinning.name);
    NoMatchWithoutFirstChar(grinning, "zzz", grinning.name);
  }

  /** Keywords are compared as they are, against the lower-cased term: a
      record named "grinning face" whose only keyword is "Smile" is not
      found by the term "Smile", which is lower-cased to "smile" first. */
  lemma KeywordsAreCaseSensitive(rec: EmojiRecord)
    requires rec.name == "grinning face" && rec.keywords == ["Smile"] && rec.category != RecentId
    ensures LoadEmojis([rec], [], rec.category, "Smile") == Success(NoEmojisFound)
  {
    SearchSingleRecord(rec, [], "Smile");
    assert Lower("Smile") == "smile";
    GrinningFaceName(rec.name);
    NoMatchWithoutFirstChar(rec, "smile", rec.name);
  }
}
