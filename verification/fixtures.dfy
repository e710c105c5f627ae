/** The bundled mock data of `data/articles.ts`, seen through the home
    screen's filter and the card normaliser. */
module Fixtures {
  import opened Options
  import opened Seqs
  import opened JsText
  import opened FeedScreen
  import ArticleCard

  const Crisis: FeedArticle := FeedArticle(
    "1", "crisis-hidrica-los-salias",
    "Crisis hídrica en Los Salias: ¿qué está pasando?",
    "Vecinos reportan fallas prolongadas. Te explicamos el contexto y las respuestas oficiales.",
    "Servicios", None)

  /** Written as three pieces so that "salud" sits at a known position. */
  const HealthTitle: string := "Operativo de " + "salud" + " comunal en San Antonio este fin de semana"

  const Health: FeedArticle := FeedArticle(
    "2", "operativo-salud-comunal-san-antonio",
    HealthTitle,
    "Jornadas de vacunación y despistaje. Conoce horarios y puntos de atención.",
    "Comunidad", None)

  /** `ARTICLES`, as the home screen reads it. */
  const Articles: seq<FeedArticle> := [Crisis, Health]

  /** The first mock row as the card receives it. */
  const CrisisRow: ArticleCard.CardInput := ArticleCard.CardInput(
    Some(ArticleCard.IdText("1")), Some("crisis-hidrica-los-salias"),
    Some("Crisis hídrica en Los Salias: ¿qué está pasando?"),
    None,
    Some("Vecinos reportan fallas prolongadas. Te explicamos el contexto y las respuestas oficiales."),
    None, None, Some("https://images.unsplash.com/photo-1504893524553-b8553f6c15c9"),
    None, Some("Servicios"), Some(5))

  /** Selecting the "Servicios" chip with an empty query leaves only the first article. */
  lemma TagScenario()
    ensures FilteredFrom(Articles, "", Some("Servicios")) == [Crisis]
  {
    var keep := Keep("", Some("Servicios"));
    EmptyQueryNormalizesToEmpty();
    assert keep(Crisis);
    assert Health.tag[0] != 'S';
    assert !keep(Health);
    FilterCons(Crisis, [Health], keep);
    FilterCons(Health, [], keep);
  }

  /** The query "salud" is already in normal form. */
  lemma SaludIsNormal()
    ensures NormalizeQuery("salud") == "salud"
  {
    var k := "salud";
    assert TrimStart(k) == k;
    assert TrimEnd(k) == k;
    var l := Lower(k);
    assert l[0] == 's' && l[1] == 'a' && l[2] == 'l' && l[3] == 'u' && l[4] == 'd';
  }

  /** The second article's title mentions "salud", so that query keeps it. */
  lemma HealthTitleMentionsSalud()
    ensures Includes(Lower(Health.title), "salud")
  {
    var t := HealthTitle;
    assert t[13..18] == "salud";
    assert t[13] == 's' && t[14] == 'a' && t[15] == 'l' && t[16] == 'u' && t[17] == 'd';
    var h := Lower(t);
    assert h[13..18] == "salud";
    assert OccursAt(h, "salud", 13);
    IncludesSpec(h, "salud");
  }

  /** With no filter the first article is featured. */
  lemma FeaturedScenario()
    ensures Featured(Articles, "", None) == Some(Crisis)
  {
  }

  /** The chips read "Comunidad", "Servicios" under any comparator that puts
      the first before the second. */
  lemma CatalogueScenario(le: (string, string) -> bool)
    requires le("Comunidad", "Servicios") && !le("Servicios", "Comunidad")
    ensures Catalogue(Articles, le) == ["Comunidad", "Servicios"]
  {
    var tags := TagsOf(Articles);
    assert tags == ["Servicios", "Comunidad"];
    var f := Filter(["Comunidad"], y => y != "Servicios");
    FilterCons("Comunidad", [], y => y != "Servicios");
    assert f == ["Comunidad"];
    var g := Filter([], y => y != "Comunidad");
    assert Dedup(["Comunidad"]) == ["Comunidad"] + Dedup(g);
    assert Dedup(tags) == ["Servicios", "Comunidad"];
    assert SortBy(["Comunidad"], le) == ["Comunidad"];
  }

  /** The first mock row's card: its own tag, summary and reading time, and
      a link built from its id. */
  lemma CardScenario()
    ensures var c := ArticleCard.Normalize(CrisisRow);
      && c.tag == "Servicios"
      && c.mins == 5
      && c.summary == CrisisRow.summary.value
      && c.cover == CrisisRow.localCover
      && c.href == Some("/article/1")
  {
    var c := ArticleCard.Normalize(CrisisRow);
    assert c.tag == "Servicios";
    assert c.mins == 5;
    assert c.summary == CrisisRow.summary.value;
    assert c.cover == CrisisRow.localCover;
    assert ArticleCard.IdOrSlug(CrisisRow) == Some("1");
    assert ArticleCard.ArticlePath + "1" == "/article/1";
  }
}
