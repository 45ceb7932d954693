/**
 * Localized fields. The page reads `entity[key]` with the key taken from
 * the string table: "name" or "name_en", "description" or
 * "description_en". There is no fallback: a missing English field reads
 * as undefined.
 */
module Fields {
  import opened Wrappers
  import opened Api
  import opened Locale

  /** `strings.key_name[language]`: the English key is the Korean one
      with the suffix "_en". */
  function NameKey(l: Language): (k: string)
    ensures k == "name" + (if l == En then "_en" else "")
  {
    match l
    case Ko => "name"
    case En => "name_en"
  }

  /** `strings.key_description[language]`: the English key is the Korean
      one with the suffix "_en". */
  function DescriptionKey(l: Language): (k: string)
    ensures k == "description" + (if l == En then "_en" else "")
  {
    match l
    case Ko => "description"
    case En => "description_en"
  }

  /** `project[strings.key_name[language]]`. */
  function ProjectName(p: Project, l: Language): (r: Option<string>)
    ensures l == Ko ==> r == Some(p.name)
    ensures l == En ==> r == p.nameEn
  {
    p.Field(NameKey(l))
  }

  /** `project[strings.key_description[language]]`. */
  function ProjectDescription(p: Project, l: Language): (r: Option<string>)
    ensures l == Ko ==> r == Some(p.description)
    ensures l == En ==> r == p.descriptionEn
  {
    p.Field(DescriptionKey(l))
  }

  /** `team[strings.key_name[language]]`. */
  function TeamName(t: Team, l: Language): (r: Option<string>)
    ensures l == Ko ==> r == Some(t.name)
    ensures l == En ==> r == t.nameEn
  {
    t.Field(NameKey(l))
  }

  /** English never falls back to the Korean base name: without `name_en`
      there is nothing to show. */
  lemma NoFallback(p: Project, t: Team)
    ensures p.nameEn == None ==> ProjectName(p, En) == None
    ensures p.descriptionEn == None ==> ProjectDescription(p, En) == None
    ensures t.nameEn == None ==> TeamName(t, En) == None
  {
  }
}
