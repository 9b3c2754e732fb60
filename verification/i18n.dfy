/** The locale configuration (web/src/i18n/config.ts). */
module I18n {
  const Locales: seq<string> := ["tr", "en", "es", "de", "fr"]
  const DefaultLocale := "tr"

  /** `bcp47[l]`: the language tag of a locale; any other key reads
      `undefined`, which becomes the property name "undefined". */
  function Bcp47(l: string): (tag: string)
    ensures l in Locales <==> tag != "undefined"
  {
    if l == "tr" then "tr-TR"
    else if l == "en" then "en-US"
    else if l == "es" then "es-ES"
    else if l == "de" then "de-DE"
    else if l == "fr" then "fr-FR"
    else "undefined"
  }

  /** Distinct locales have distinct tags, and no tag is "x-default". */
  lemma Bcp47Injective(a: string, b: string)
    requires a in Locales
    ensures Bcp47(a) == Bcp47(b) <==> a == b
    ensures Bcp47(a) != "x-default"
  {
  }
}
