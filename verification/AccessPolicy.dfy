/**
 Who may use a resource, and how the decision relates to the label search shows for it.
 */
module AccessPolicy {
  import opened Common
  import opened Catalog

  /** A licence is valid from midnight of its first day to midnight of its last; no faculty listed means all. */
  datatype License = License(startsAt: Option<int>, expiresAt: Option<int>, faculties: seq<string>)

  datatype Decision = Decision(allowed: bool, status: AccessStatus)

  predicate LicenseRuns(license: License, now: int) {
    !(license.startsAt.Some? && license.startsAt.value * MS_PER_DAY > now) &&
    !(license.expiresAt.Some? && license.expiresAt.value * MS_PER_DAY < now)
  }

  predicate LicenseCovers(license: License, faculty: Option<string>) {
    license.faculties == [] || (faculty.Some? && faculty.value in license.faculties)
  }

  function ResolveThesis(row: Row, now: int): Decision {
    if row.EmbargoUntil().Some? && row.EmbargoUntil().value * MS_PER_DAY > now then Decision(false, Embargoed)
    else Decision(true, Available)
  }

  function ResolveJournalArticle(row: Row, faculty: Option<string>, licenses: map<int, License>, now: int): Decision {
    var id := if row.article.Some? then row.article.value.license else None;
    if id == None || id.value !in licenses then Decision(false, LicenseGated)
    else if !LicenseRuns(licenses[id.value], now) then Decision(false, LicenseGated)
    else if !LicenseCovers(licenses[id.value], faculty) then Decision(false, LicenseGated)
    else Decision(true, Available)
  }

  function ResolveResearchReport(row: Row, faculty: Option<string>): Decision {
    var scope := row.DepartmentScope();
    if scope == None then Decision(true, Available)
    else if faculty == scope then Decision(true, Available)
    else Decision(false, DepartmentScoped)
  }

  function Resolve(row: Row, faculty: Option<string>, licenses: map<int, License>, now: int): Decision {
    match row.base.resourceType
    case PhysicalBook => Decision(true, Available)
    case Thesis => ResolveThesis(row, now)
    case JournalArticle => ResolveJournalArticle(row, faculty, licenses, now)
    case ResearchReport => ResolveResearchReport(row, faculty)
    case RareMaterial => Decision(false, SupervisedOnly)
  }

  /** A licence admits a faculty at an instant within its days, the midnights that bound them included. */
  predicate Grants(license: License, faculty: Option<string>, now: int) {
    (license.startsAt.Some? ==> license.startsAt.value * MS_PER_DAY <= now) &&
    (license.expiresAt.Some? ==> now <= license.expiresAt.value * MS_PER_DAY) &&
    (license.faculties != [] ==> exists i | 0 <= i < |license.faculties| :: faculty == Some(license.faculties[i]))
  }

  /** What admits a member to a resource, type by type. */
  predicate Admits(row: Row, faculty: Option<string>, licenses: map<int, License>, now: int) {
    match row.base.resourceType
    case PhysicalBook => true
    case Thesis => row.thesis.Some? && row.thesis.value.embargoUntil.Some? ==>
                     row.thesis.value.embargoUntil.value * MS_PER_DAY <= now
    case JournalArticle =>
      row.article.Some? && row.article.value.license.Some? && row.article.value.license.value in licenses &&
      Grants(licenses[row.article.value.license.value], faculty, now)
    case ResearchReport => row.report.Some? && row.report.value.departmentScope.Some? ==>
                             faculty == row.report.value.departmentScope
    case RareMaterial => false
  }

  function RefusalFor(t: ResourceType): AccessStatus {
    match t
    case Thesis => Embargoed
    case JournalArticle => LicenseGated
    case ResearchReport => DepartmentScoped
    case RareMaterial => SupervisedOnly
    case PhysicalBook => Available
  }

  lemma LicenseGrantsExactly(license: License, faculty: Option<string>, now: int)
    ensures LicenseRuns(license, now) && LicenseCovers(license, faculty) <==> Grants(license, faculty, now)
  {
    if LicenseCovers(license, faculty) && license.faculties != [] {
      var i :| 0 <= i < |license.faculties| && license.faculties[i] == faculty.value;
    }
  }

  /** The resolver allows exactly what admits, and a refusal names the kind of the resource. */
  lemma AllowsExactly(row: Row, faculty: Option<string>, licenses: map<int, License>, now: int)
    ensures var d := Resolve(row, faculty, licenses, now);
            (d.allowed <==> Admits(row, faculty, licenses, now)) &&
            (d.allowed ==> d.status == Available) && (!d.allowed ==> d.status == RefusalFor(row.base.resourceType))
  {
    if row.article.Some? && row.article.value.license.Some? && row.article.value.license.value in licenses {
      LicenseGrantsExactly(licenses[row.article.value.license.value], faculty, now);
    }
  }

  /** A member is admitted exactly when the status is AVAILABLE; otherwise it is the label search shows. */
  lemma StatusIsLabelOrAvailable(row: Row, faculty: Option<string>, licenses: map<int, License>, now: int)
    ensures var d := Resolve(row, faculty, licenses, now);
            (d.allowed <==> d.status == Available) &&
            (!d.allowed && !BlankScope(row) ==> d.status == LabelOf(row, now))
  {
    match row.base.resourceType
    case PhysicalBook =>
    case Thesis =>
    case JournalArticle =>
    case ResearchReport =>
    case RareMaterial =>
  }

  /** Open to every member, whatever licences there are. */
  ghost predicate OpenToAll(row: Row, now: int) {
    forall faculty: Option<string>, licenses: map<int, License> :: Resolve(row, faculty, licenses, now).allowed
  }

  /**
   Search labels a resource AVAILABLE exactly when it is open to every member, unless its scope is blank,
   and then the two part: search says AVAILABLE and a member without a faculty is refused.
   */
  lemma LabelAvailableMeansOpenToAll(row: Row, now: int)
    ensures (LabelOf(row, now) == Available <==> OpenToAll(row, now)) <==> !BlankScope(row)
  {
    var nobody := Resolve(row, None, map[], now);
    if nobody.allowed {
      forall faculty: Option<string>, licenses: map<int, License>
        ensures Resolve(row, faculty, licenses, now).allowed
      {
      }
    }
    assert OpenToAll(row, now) <==> nobody.allowed;
  }
}
