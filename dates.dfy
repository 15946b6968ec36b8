/**
 * Calendar dates (`datetime.date`, aliased `VersionDate` in versions.py), ordered the way
 * Python compares them: by year, then month, then day.
 */
module Dates {

  datatype Date = Date(year: int, month: int, day: int)

  /** `a <= b` on Python dates. */
  predicate Le(a: Date, b: Date)
  {
    a.year < b.year
    || (a.year == b.year && a.month < b.month)
    || (a.year == b.year && a.month == b.month && a.day <= b.day)
  }

  /** `a < b` on Python dates. */
  predicate Lt(a: Date, b: Date)
  {
    Le(a, b) && a != b
  }

  lemma LeTotal(a: Date, b: Date)
    ensures Le(a, b) || Le(b, a)
    ensures !Le(a, b) ==> Lt(b, a)
  {
  }

  lemma LeTransitive(a: Date, b: Date, c: Date)
    requires Le(a, b) && Le(b, c)
    ensures Le(a, c)
  {
  }

  lemma LeAntisymmetric(a: Date, b: Date)
    requires Le(a, b) && Le(b, a)
    ensures a == b
  {
  }
}
