/** The record types shared by the candidate browser: a candidate, its
    availability and the two named sort orders. */
module Types {

  /** An optional value; `None` stands for a field that is absent or a
      lookup that found nothing (`undefined`). */
  datatype Option<+T> = None | Some(value: T)

  /** When a candidate can start. The three constructors are the three
      string literals the record may hold. */
  datatype Availability = Immediate | TwoWeeks | OneMonth {
    /** The literal that represents this value in a record. */
    function Label(): (s: string)
      ensures s in {"immediate", "2-weeks", "1-month"}
    {
      match this
      case Immediate => "immediate"
      case TwoWeeks => "2-weeks"
      case OneMonth => "1-month"
    }
  }

  /** A job applicant. `avatar` is the only optional field; `experience`
      counts years and `skills` keeps the order in which it was written. */
  datatype Candidate = Candidate(
    id: string,
    name: string,
    email: string,
    role: string,
    experience: int,
    skills: seq<string>,
    avatar: Option<string>,
    location: string,
    availability: Availability)

  /** The two sort orders the list view offers. */
  datatype SortOption = NameAsc | ExperienceDesc {
    /** The literal that selects this order. */
    function Label(): (s: string)
      ensures s in {"name-asc", "experience-desc"}
    {
      match this
      case NameAsc => "name-asc"
      case ExperienceDesc => "experience-desc"
    }
  }

  /** Each availability literal names exactly one availability. */
  lemma AvailabilityLabels(a: Availability, b: Availability)
    ensures a.Label() == b.Label() <==> a == b
    ensures a.Label() == "immediate" <==> a == Immediate
    ensures a.Label() == "2-weeks" <==> a == TwoWeeks
    ensures a.Label() == "1-month" <==> a == OneMonth
  {
  }

  /** Each sort literal names exactly one sort option. */
  lemma SortOptionLabels(o: SortOption, p: SortOption)
    ensures o.Label() == p.Label() <==> o == p
    ensures o.Label() == "name-asc" <==> o == NameAsc
    ensures o.Label() == "experience-desc" <==> o == ExperienceDesc
  {
  }
}
