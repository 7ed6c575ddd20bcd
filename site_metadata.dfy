/**
 * The Open Graph page type of a bookmarked site (`og:type`), with its
 * textual form and the lenient parse back from text.
 */
module SiteMetadata {

  datatype SiteType =
    | MusicSong | MusicAlbum | MusicPlaylist | MusicRadioStation
    | VideoMovie | VideoEpisode | VideoTvShow | VideoOther
    | Article | Book | Profile | Website

  /** The type assumed when a page declares none. */
  function DefaultSiteType(): (t: SiteType)
    ensures t == Website && ToText(t) == "website"
  {
    Website
  }

  /** `Display`: the Open Graph spelling of the type. */
  function ToText(t: SiteType): string
  {
    match t
    case MusicSong => "music.song"
    case MusicAlbum => "music.album"
    case MusicPlaylist => "music.playlist"
    case MusicRadioStation => "music.radio_station"
    case VideoMovie => "video.movie"
    case VideoEpisode => "video.episode"
    case VideoTvShow => "video.tv_show"
    case VideoOther => "video.other"
    case Article => "article"
    case Book => "book"
    case Profile => "profile"
    case Website => "website"
  }

  /** `SiteType::from`: exact, case-sensitive match; anything unknown is a website. */
  function FromText(txt: string): (t: SiteType)
    ensures t != Website ==> ToText(t) == txt
  {
    if txt == "music.song" then MusicSong
    else if txt == "music.album" then MusicAlbum
    else if txt == "music.playlist" then MusicPlaylist
    else if txt == "music.radio_station" then MusicRadioStation
    else if txt == "video.movie" then VideoMovie
    else if txt == "video.episode" then VideoEpisode
    else if txt == "video.tv_show" then VideoTvShow
    else if txt == "video.other" then VideoOther
    else if txt == "article" then Article
    else if txt == "book" then Book
    else if txt == "profile" then Profile
    else Website
  }

  /** Parsing the displayed form gives the type back. */
  lemma FromTextToText(t: SiteType)
    ensures FromText(ToText(t)) == t
  {
  }

  /** Distinct types display differently. */
  lemma ToTextInjective(t: SiteType, u: SiteType)
    requires ToText(t) == ToText(u)
    ensures t == u
  {
    FromTextToText(t);
    FromTextToText(u);
  }

  /** Any text that is not the spelling of a type parses as a website. */
  lemma FromTextUnknown(txt: string)
    requires forall t: SiteType :: ToText(t) != txt
    ensures FromText(txt) == Website
  {
  }
}
