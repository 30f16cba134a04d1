/** The member record and the team categories of the member directory. */
module Model {
  import opened Wrappers

  /** The six team buckets a member can be placed in. */
  datatype Category = Faculty | CoreTeam | TechnicalTeam | WebsiteTeam | ExecutiveTeam | EventsTeam

  /** The label the directory uses as the bucket's key. */
  function Label(c: Category): string {
    match c
    case Faculty => "Faculty"
    case CoreTeam => "Core Team"
    case TechnicalTeam => "Technical Team"
    case WebsiteTeam => "Website Team"
    case ExecutiveTeam => "Executive Team"
    case EventsTeam => "Events Team"
  }

  /** Distinct categories have distinct labels, so a map keyed by category is a map keyed by label. */
  lemma LabelInjective(c: Category, d: Category)
    ensures Label(c) == Label(d) ==> c == d
  {
  }

  /** One directory entry; an absent optional field is `None` (`undefined`). */
  datatype Member = Member(
    name: string,
    role: string,
    linkedIn: Option<string>,
    profileImage: Option<string>,
    email: Option<string>,
    category: Option<Category>)
}
