/**
 * The entity graph returned by the portfolio API (app/models/api.server.ts).
 * The relations are denormalised in the payload: a project lists its awards
 * and each award lists its projects again.
 */
module Api {
  import opened Wrappers

  /** A project. `nameEn` and `descriptionEn` stand for the JSON keys
      `name_en` and `description_en`, which a record may lack. */
  datatype Project = Project(
    id: string,
    key: string,
    name: string,
    nameEn: Option<string>,
    description: string,
    descriptionEn: Option<string>,
    teams: seq<Team>,
    awards: seq<Award>)
  {
    /** `project[k]` for one of the string-valued own keys: it is
        undefined exactly for an absent optional field. */
    function Field(k: string): (r: Option<string>)
      requires k in {"id", "key", "name", "name_en", "description", "description_en"}
      ensures r == None <==>
        (k == "name_en" && nameEn == None) || (k == "description_en" && descriptionEn == None)
    {
      if k == "id" then Some(id)
      else if k == "key" then Some(key)
      else if k == "name" then Some(name)
      else if k == "name_en" then nameEn
      else if k == "description" then Some(description)
      else descriptionEn
    }
  }

  /** A team; `nameEn` stands for the optional JSON key `name_en`. */
  datatype Team = Team(
    id: string,
    key: string,
    name: string,
    nameEn: Option<string>,
    description: string,
    projects: seq<Project>,
    awards: seq<Award>)
  {
    /** `team[k]` for one of the string-valued own keys: it is undefined
        exactly for an absent `name_en`. */
    function Field(k: string): (r: Option<string>)
      requires k in {"id", "key", "name", "name_en", "description"}
      ensures r == None <==> k == "name_en" && nameEn == None
    {
      if k == "id" then Some(id)
      else if k == "key" then Some(key)
      else if k == "name" then Some(name)
      else if k == "name_en" then nameEn
      else Some(description)
    }
  }

  /** An award. `awardedBy` stands for the JSON key `by` (a Dafny keyword);
      `date` is an ISO date or the sentinel "0000-00-00". */
  datatype Award = Award(
    id: string,
    key: string,
    name: string,
    period: string,
    awardedBy: string,
    date: string,
    teams: seq<Team>,
    projects: seq<Project>)

  /** The whole graph returned by one fetch. */
  datatype Portfolio = Portfolio(projects: seq<Project>, teams: seq<Team>, awards: seq<Award>)

  /** A project with its long-form Markdown text. */
  datatype ProjectDetail = ProjectDetail(info: Project, content: string)
}
