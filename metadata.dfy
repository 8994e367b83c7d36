/**
 * src/components/metadata.tsx: the head tags of a page. The title is suffixed with the
 * site name; description, canonical URL, image, card and type fall back to defaults;
 * keywords, robots and the article tags are emitted only under their conditions.
 */
module Metadata {
  import opened JsStrings
  import opened Store

  datatype MetadataProps = MetadataProps(
    title: string,
    description: Option<string>,
    canonicalUrl: Option<string>,
    ogImage: Option<string>,
    ogType: Option<string>,
    twitterCard: Option<string>,
    publishedTime: Option<string>,
    modifiedTime: Option<string>,
    author: Option<string>,
    keywords: Option<seq<string>>,
    noIndex: Option<bool>,
    /** The structured data, already serialised by `JSON.stringify`. */
    structuredData: Option<string>)

  /** JavaScript truthiness of an optional string. */
  predicate Truthy(s: Option<string>) {
    s.Some? && s.value != ""
  }

  /** `${props.title} | ${APP.LONG_NAME}` */
  function FullTitle(props: MetadataProps, app: AppInfo): (r: string)
    ensures StartsWith(r, props.title) && EndsWith(r, app.longName)
    ensures |r| == |props.title| + 3 + |app.longName|
  {
    EndsWithConcat(props.title + " | ", app.longName);
    props.title + " | " + app.longName
  }

  lemma EndsWithConcat(a: string, b: string)
    ensures EndsWith(a + b, b)
  {
    assert (a + b)[|a|..] == b;
  }

  /** `metaDescription()`: `props.description ?? APP.DESCRIPTION`, so only an absent description is replaced. */
  function MetaDescription(props: MetadataProps, app: AppInfo): (r: string)
    ensures props.description.Some? ==> r == props.description.value
    ensures props.description.None? ==> r == app.description
  {
    props.description.GetOr(app.description)
  }

  /**
   * The canonical URL: a truthy prop, else the page URL when a window exists (`href`),
   * else the home page.
   */
  function CanonicalUrl(props: MetadataProps, app: AppInfo, href: Option<string>): (r: string)
    ensures Truthy(props.canonicalUrl) ==> r == props.canonicalUrl.value
    ensures !Truthy(props.canonicalUrl) && href.Some? ==> r == href.value
    ensures !Truthy(props.canonicalUrl) && href.None? ==> r == app.homePage
  {
    if Truthy(props.canonicalUrl) then props.canonicalUrl.value
    else if href.Some? then href.value
    else app.homePage
  }

  const DefaultCard := "summary_large_image"
  const DefaultType := "website"
  const ArticleType := "article"
  const ViewportContent := "width=device-width, initial-scale=1"
  const RobotsContent := "noindex, nofollow"

  /** `props.keywords && props.keywords.length > 0` */
  predicate HasKeywords(props: MetadataProps) {
    props.keywords.Some? && |props.keywords.value| > 0
  }

  /** The Open Graph properties, `og:title` to `og:image:type`. */
  datatype OpenGraph = OpenGraph(title: string, description: string, url: string, ogType: string,
                                 siteName: string, image: string, imageAlt: string,
                                 imageWidth: string, imageHeight: string, imageType: string)

  /** The Twitter card names, `twitter:card` to `twitter:site`. */
  datatype Twitter = Twitter(card: string, title: string, description: string, image: string,
                             creator: string, site: string)

  /** The `article:*` properties, each present or not. */
  datatype Article = Article(author: Option<string>, publishedTime: Option<string>,
                             modifiedTime: Option<string>, tag: Option<string>)

  /**
   * The rendered head: one field per tag, an `Option` for each tag rendered only under
   * a condition. The favicon links are fixed and not represented.
   */
  datatype Head = Head(title: string, description: string, author: string,
                       keywords: Option<string>, viewport: string, canonical: string,
                       robots: Option<string>, og: OpenGraph, twitter: Twitter,
                       article: Option<Article>, structuredData: Option<string>)

  /** The tags of `Metadata(props)`; `href` is `window.location.href` when a window exists. */
  function Render(props: MetadataProps, app: AppInfo, href: Option<string>): (h: Head)
    // The full title is the title, og:title and twitter:title.
    ensures h.title == FullTitle(props, app) && h.og.title == h.title && h.twitter.title == h.title
    // One description everywhere.
    ensures h.description == MetaDescription(props, app)
    ensures h.og.description == h.description && h.og.imageAlt == h.description
    ensures h.twitter.description == h.description
    ensures h.canonical == CanonicalUrl(props, app, href) && h.og.url == h.canonical
    ensures h.og.image == (if props.ogImage.Some? then props.ogImage.value else app.ogImageUrl)
    ensures h.twitter.image == h.og.image
    ensures h.twitter.card == (if props.twitterCard.Some? then props.twitterCard.value else DefaultCard)
    ensures h.og.ogType == (if props.ogType.Some? then props.ogType.value else DefaultType)
    ensures h.author == app.author && h.twitter.creator == app.author
    ensures h.og.siteName == app.longName && h.twitter.site == app.longName
    // Keywords only for a non-empty list, joined by ', ' (and by ',' for article:tag).
    ensures h.keywords.Some? <==> HasKeywords(props)
    ensures h.keywords.Some? ==> h.keywords.value == Join(props.keywords.value, ", ")
    ensures h.robots.Some? <==> props.noIndex == Some(true)
    ensures h.robots.Some? ==> h.robots.value == RobotsContent
    // The article block only for the type 'article', each tag only for a truthy prop.
    ensures h.article.Some? <==> h.og.ogType == ArticleType
    ensures h.article.Some? ==>
      && (h.article.value.author.Some? <==> Truthy(props.author))
      && (h.article.value.author.Some? ==> h.article.value.author.value == props.author.value)
      && (h.article.value.publishedTime.Some? <==> Truthy(props.publishedTime))
      && (h.article.value.publishedTime.Some? ==>
            h.article.value.publishedTime.value == props.publishedTime.value)
      && (h.article.value.modifiedTime.Some? <==> Truthy(props.modifiedTime))
      && (h.article.value.modifiedTime.Some? ==>
            h.article.value.modifiedTime.value == props.modifiedTime.value)
      && (h.article.value.tag.Some? <==> HasKeywords(props))
      && (h.article.value.tag.Some? ==> h.article.value.tag.value == Join(props.keywords.value, ","))
    ensures h.structuredData == props.structuredData
  {
    var fullTitle := FullTitle(props, app);
    var description := MetaDescription(props, app);
    var canonical := CanonicalUrl(props, app, href);
    var ogImage := props.ogImage.GetOr(app.ogImageUrl);
    var ogType := props.ogType.GetOr(DefaultType);
    var keywords := if HasKeywords(props) then Some(Join(props.keywords.value, ", ")) else None;
    var article :=
      if ogType != ArticleType then None
      else Some(Article(
        if Truthy(props.author) then props.author else None,
        if Truthy(props.publishedTime) then props.publishedTime else None,
        if Truthy(props.modifiedTime) then props.modifiedTime else None,
        if HasKeywords(props) then Some(Join(props.keywords.value, ",")) else None));
    Head(fullTitle, description, app.author, keywords, ViewportContent, canonical,
         if props.noIndex == Some(true) then Some(RobotsContent) else None,
         OpenGraph(fullTitle, description, canonical, ogType, app.longName, ogImage, description,
                   "1200", "630", "image/jpeg"),
         Twitter(props.twitterCard.GetOr(DefaultCard), fullTitle, description, ogImage,
                 app.author, app.longName),
         article, props.structuredData)
  }

  // ---------------------------------------------------------------------------
  // Properties

  /** The article tags need the type given as exactly 'article': the default type is 'website'. */
  lemma ArticleOnlyWhenTyped(props: MetadataProps, app: AppInfo, href: Option<string>)
    ensures Render(props, app, href).article.Some? <==> props.ogType == Some(ArticleType)
  {
    assert DefaultType != ArticleType by {
      assert DefaultType[0] != ArticleType[0];
    }
  }

  /**
   * With every optional prop absent: the site description, the page URL or home page,
   * the site image, a large summary card, the type 'website'; no keywords, robots or
   * article tags.
   */
  lemma Defaults(title: string, app: AppInfo, href: Option<string>)
    ensures var h := Render(MetadataProps(title, None, None, None, None, None, None, None, None,
                                          None, None, None), app, href);
      && h.description == app.description
      && h.canonical == (if href.Some? then href.value else app.homePage)
      && h.og.image == app.ogImageUrl && h.twitter.card == DefaultCard && h.og.ogType == DefaultType
      && h.keywords.None? && h.robots.None? && h.article.None?
  {
    ArticleOnlyWhenTyped(MetadataProps(title, None, None, None, None, None, None, None, None,
                                       None, None, None), app, href);
  }

  /**
   * `??` keeps an empty description, while `||`-style truthiness drops an empty
   * canonical URL and an empty keyword list.
   */
  lemma EmptyValues(props: MetadataProps, app: AppInfo, href: Option<string>)
    requires props.description == Some("") && props.canonicalUrl == Some("")
    requires props.keywords == Some([])
    ensures Render(props, app, href).description == ""
    ensures Render(props, app, href).canonical == (if href.Some? then href.value else app.homePage)
    ensures Render(props, app, href).keywords.None?
  {
  }
}
