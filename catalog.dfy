/**
 * The catalog of feeds: 18 regions and their 68 sources, in catalog order.
 */
module Catalog {
  import opened Collector
  import opened Regions
  const AuvergneRhoneAlpes := Region("Auvergne-Rhône-Alpes", [
    Source("Le Dauphiné libéré", "https://www.ledauphine.com/rss"),
    Source("Le Progrès", "https://www.leprogres.fr/rss"),
    Source("La Montagne", "https://www.lamontagne.fr/rss"),
    Source("L\'Éveil de la Haute-Loire", "https://www.leveil.fr/rss"),
    Source("France Bleu Isère", "https://www.francebleu.fr/rss/a-la-une/isere"),
    Source("Lyon Mag", "https://www.lyonmag.com/rss.xml")
  ])
  const BourgogneFrancheComte := Region("Bourgogne-Franche-Comté", [
    Source("Le Journal de Saône-et-Loire", "https://www.lejsl.com/rss"),
    Source("Le Bien public", "https://www.bienpublic.com/rss"),
    Source("L\'Yonne républicaine", "https://www.lyonne.fr/rss"),
    Source("L\'Est républicain", "https://www.estrepublicain.fr/rss"),
    Source("France Bleu Bourgogne", "https://www.francebleu.fr/rss/a-la-une/bourgogne")
  ])
  const Bretagne := Region("Bretagne", [
    Source("Ouest-France Bretagne", "https://www.ouest-france.fr/rss-en-continu.xml"),
    Source("Le Télégramme", "https://www.letelegramme.fr/rss.xml"),
    Source("France Bleu Breizh Izel", "https://www.francebleu.fr/rss/a-la-une/breizh-izel")
  ])
  const CentreValDeLoire := Region("Centre-Val de Loire", [
    Source("La République du Centre", "https://www.larep.fr/rss"),
    Source("Le Berry républicain", "https://www.leberry.fr/rss"),
    Source("L\'Écho républicain", "https://www.lechorepublicain.fr/rss"),
    Source("France Bleu Berry", "https://www.francebleu.fr/rss/a-la-une/berry")
  ])
  const Corse := Region("Corse", [
    Source("Corse-Matin", "https://www.corsematin.com/rss"),
    Source("France Bleu RCFM", "https://www.francebleu.fr/rss/a-la-une/rcfm")
  ])
  const GrandEst := Region("Grand Est", [
    Source("Les Dernières Nouvelles d\'Alsace", "https://www.dna.fr/rss"),
    Source("L\'Alsace", "https://www.lalsace.fr/rss"),
    Source("Le Républicain lorrain", "https://www.republicain-lorrain.fr/rss"),
    Source("L\'Union", "https://www.lunion.fr/rss"),
    Source("Vosges Matin", "https://www.vosgesmatin.fr/rss"),
    Source("France Bleu Alsace", "https://www.francebleu.fr/rss/a-la-une/alsace"),
    Source("France Bleu Lorraine", "https://www.francebleu.fr/rss/a-la-une/lorraine-nord")
  ])
  const HautsDeFrance := Region("Hauts-de-France", [
    Source("La Voix du Nord", "https://www.lavoixdunord.fr/rss"),
    Source("Le Courrier picard", "https://www.courrier-picard.fr/rss"),
    Source("Nord éclair", "https://www.nordeclair.fr/rss"),
    Source("Nord Littoral", "https://www.nordlittoral.fr/rss"),
    Source("France Bleu Nord", "https://www.francebleu.fr/rss/a-la-une/nord")
  ])
  const IleDeFrance := Region("Île-de-France", [
    Source("Le Parisien", "https://www.leparisien.fr/rss.xml"),
    Source("France Bleu Paris", "https://www.francebleu.fr/rss/a-la-une/107-1"),
    Source("Actu.fr Paris", "https://actu.fr/ile-de-france/rss")
  ])
  const Normandie := Region("Normandie", [
    Source("La Presse de la Manche", "https://www.lamanchelibre.fr/rss"),
    Source("Paris Normandie", "https://www.paris-normandie.fr/rss"),
    Source("France Bleu Normandie", "https://www.francebleu.fr/rss/a-la-une/normandie-caen")
  ])
  const NouvelleAquitaine := Region("Nouvelle-Aquitaine", [
    Source("Sud Ouest", "https://www.sudouest.fr/rss.xml"),
    Source("Charente libre", "https://www.charentelibre.fr/rss"),
    Source("Le Populaire du Centre", "https://www.lepopulaire.fr/rss"),
    Source("La Nouvelle République des Pyrénées", "https://www.nrpyrenees.fr/rss"),
    Source("France Bleu Gironde", "https://www.francebleu.fr/rss/a-la-une/gironde"),
    Source("France Bleu Périgord", "https://www.francebleu.fr/rss/a-la-une/perigord")
  ])
  const Occitanie := Region("Occitanie", [
    Source("La Dépêche du Midi", "https://www.ladepeche.fr/rss.xml"),
    Source("Midi libre", "https://www.midilibre.fr/rss"),
    Source("L\'Indépendant", "https://www.lindependant.fr/rss"),
    Source("Centre Presse", "https://www.centrepresseaveyron.fr/rss"),
    Source("France Bleu Toulouse", "https://www.francebleu.fr/rss/a-la-une/toulouse"),
    Source("France Bleu Hérault", "https://www.francebleu.fr/rss/a-la-une/herault")
  ])
  const PaysDeLaLoire := Region("Pays de la Loire", [
    Source("Le Courrier de l\'Ouest", "https://www.courrierdelouest.fr/rss"),
    Source("Le Maine libre", "https://www.ouest-france.fr/maine-libre/rss.xml"),
    Source("Presse-Océan", "https://www.presseocean.fr/rss"),
    Source("France Bleu Loire Océan", "https://www.francebleu.fr/rss/a-la-une/loire-ocean")
  ])
  const ProvenceAlpesCoteDAzur := Region("Provence-Alpes-Côte d\'Azur", [
    Source("La Provence", "https://www.laprovence.com/rss/une.xml"),
    Source("Nice-Matin", "https://www.nicematin.com/rss"),
    Source("Var-Matin", "https://www.varmatin.com/rss"),
    Source("France Bleu Azur", "https://www.francebleu.fr/rss/a-la-une/azur")
  ])
  const Guadeloupe := Region("Guadeloupe", [
    Source("France-Antilles Guadeloupe", "https://www.franceantilles.fr/guadeloupe/rss.xml"),
    Source("France Bleu Guadeloupe", "https://www.francebleu.fr/rss/a-la-une/guadeloupe")
  ])
  const Martinique := Region("Martinique", [
    Source("France-Antilles Martinique", "https://www.franceantilles.fr/martinique/rss.xml"),
    Source("France Bleu Martinique", "https://www.francebleu.fr/rss/a-la-une/martinique")
  ])
  const Guyane := Region("Guyane", [
    Source("La Presse de Guyane", "https://www.franceguyane.fr/rss.xml"),
    Source("France Bleu Guyane", "https://www.francebleu.fr/rss/a-la-une/guyane")
  ])
  const LaReunion := Region("La Réunion", [
    Source("Le Journal de l\'île de La Réunion", "https://www.clicanoo.re/rss.xml"),
    Source("Le Quotidien de la Réunion", "https://www.lequotidien.re/rss.xml"),
    Source("France Bleu La Réunion", "https://www.francebleu.fr/rss/a-la-une/la-reunion")
  ])
  const Mayotte := Region("Mayotte", [
    Source("Mayotte Hebdo", "https://lejournaldemayotte.yt/feed/")
  ])
  /** The regions in catalog order. */
  const RssSources: seq<Region> := [
    AuvergneRhoneAlpes, BourgogneFrancheComte, Bretagne, CentreValDeLoire,
    Corse, GrandEst, HautsDeFrance, IleDeFrance,
    Normandie, NouvelleAquitaine, Occitanie, PaysDeLaLoire,
    ProvenceAlpesCoteDAzur, Guadeloupe, Martinique, Guyane,
    LaReunion, Mayotte
  ]

  /** A catalog region no request path reaches. */
  ghost predicate Unreachable(r: Region)
  {
    forall path :: Slug(r.name) != LookupKey(path)
  }

  lemma AuvergneRhoneAlpesUnreachable()
    ensures Unreachable(AuvergneRhoneAlpes)
  {
    assert AuvergneRhoneAlpes.name[8] == '-';
    SlugHasHyphen(AuvergneRhoneAlpes.name);
  }

  lemma BourgogneFrancheComteUnreachable()
    ensures Unreachable(BourgogneFrancheComte)
  {
    assert BourgogneFrancheComte.name[9] == '-';
    SlugHasHyphen(BourgogneFrancheComte.name);
  }

  lemma CentreValDeLoireUnreachable()
    ensures Unreachable(CentreValDeLoire)
  {
    assert CentreValDeLoire.name[6] == '-';
    SlugHasHyphen(CentreValDeLoire.name);
  }

  lemma GrandEstUnreachable()
    ensures Unreachable(GrandEst)
  {
    assert GrandEst.name[5] == ' ';
    SlugHasHyphen(GrandEst.name);
  }

  lemma HautsDeFranceUnreachable()
    ensures Unreachable(HautsDeFrance)
  {
    assert HautsDeFrance.name[5] == '-';
    SlugHasHyphen(HautsDeFrance.name);
  }

  lemma IleDeFranceUnreachable()
    ensures Unreachable(IleDeFrance)
  {
    assert IleDeFrance.name[3] == '-';
    SlugHasHyphen(IleDeFrance.name);
  }

  lemma NouvelleAquitaineUnreachable()
    ensures Unreachable(NouvelleAquitaine)
  {
    assert NouvelleAquitaine.name[8] == '-';
    SlugHasHyphen(NouvelleAquitaine.name);
  }

  lemma PaysDeLaLoireUnreachable()
    ensures Unreachable(PaysDeLaLoire)
  {
    assert PaysDeLaLoire.name[4] == ' ';
    SlugHasHyphen(PaysDeLaLoire.name);
  }

  lemma ProvenceAlpesCoteDAzurUnreachable()
    ensures Unreachable(ProvenceAlpesCoteDAzur)
  {
    assert ProvenceAlpesCoteDAzur.name[8] == '-';
    SlugHasHyphen(ProvenceAlpesCoteDAzur.name);
  }

  lemma LaReunionUnreachable()
    ensures Unreachable(LaReunion)
  {
    assert LaReunion.name[2] == ' ';
    SlugHasHyphen(LaReunion.name);
  }

  /**
   * Ten of the eighteen regions cannot be reached through the articles
   * endpoint, because their ids contain a hyphen.
   */
  lemma CatalogRegionsUnreachable()
    ensures Unreachable(AuvergneRhoneAlpes)
      && Unreachable(BourgogneFrancheComte)
      && Unreachable(CentreValDeLoire)
      && Unreachable(GrandEst)
      && Unreachable(HautsDeFrance)
      && Unreachable(IleDeFrance)
      && Unreachable(NouvelleAquitaine)
      && Unreachable(PaysDeLaLoire)
      && Unreachable(ProvenceAlpesCoteDAzur)
      && Unreachable(LaReunion)
  {
    AuvergneRhoneAlpesUnreachable();
    BourgogneFrancheComteUnreachable();
    CentreValDeLoireUnreachable();
    GrandEstUnreachable();
    HautsDeFranceUnreachable();
    IleDeFranceUnreachable();
    NouvelleAquitaineUnreachable();
    PaysDeLaLoireUnreachable();
    ProvenceAlpesCoteDAzurUnreachable();
    LaReunionUnreachable();
  }
}
