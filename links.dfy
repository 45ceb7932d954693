/**
 * Links from the index page's project and award cards to their Notion
 * pages: the entity id with every hyphen removed, after a fixed origin.
 */
module Links {
  import opened Api
  import opened Js

  const NotionOrigin: string := "https://notion.isamin.kr/"

  /** `https://notion.isamin.kr/${id.replaceAll("-", "")}`. */
  function NotionLink(id: string): (url: string)
    ensures url == NotionOrigin + RemoveAll(id, '-')
    ensures |url| >= |NotionOrigin| && url[..|NotionOrigin|] == NotionOrigin
    ensures '-' !in url[|NotionOrigin|..]
    ensures forall d :: d != '-' ==> multiset(url[|NotionOrigin|..])[d] == multiset(id)[d]
  {
    var slug := RemoveAll(id, '-');
    forall d | d != '-' ensures multiset(slug)[d] == multiset(id)[d] {
      RemoveAllKeepsOthers(id, '-', d);
    }
    assert (NotionOrigin + slug)[|NotionOrigin|..] == slug;
    NotionOrigin + slug
  }

  /** The link of a project card: the origin, then the project id without hyphens. */
  function ProjectLink(p: Project): (url: string)
    ensures |url| >= |NotionOrigin| && url[..|NotionOrigin|] == NotionOrigin
    ensures url[|NotionOrigin|..] == RemoveAll(p.id, '-')
  {
    NotionLink(p.id)
  }

  /** The link of an award card: the origin, then the award id without hyphens. */
  function AwardLink(a: Award): (url: string)
    ensures |url| >= |NotionOrigin| && url[..|NotionOrigin|] == NotionOrigin
    ensures url[|NotionOrigin|..] == RemoveAll(a.id, '-')
  {
    NotionLink(a.id)
  }

  /** An id already without hyphens is used verbatim, so stripping is idempotent. */
  lemma NotionLinkOfPlainId(id: string)
    requires '-' !in id
    ensures NotionLink(id) == NotionOrigin + id
  {
    RemoveAllAbsent(id, '-');
  }

  /** An id with one hyphen loses it. */
  lemma NotionLinkExample()
    ensures NotionLink("ab-cd") == NotionOrigin + "abcd"
  {
    assert RemoveAll("ab-cd", '-') == "abcd" by {
      assert "ab-cd" == "ab" + "-cd";
      RemoveAllAppend("ab", "-cd", '-');
      RemoveAllAbsent("ab", '-');
      assert "-cd"[1..] == "cd";
      RemoveAllAbsent("cd", '-');
    }
  }
}
