/**
 * Values read from the loosely typed dictionaries the pipeline passes
 * around: a key can be missing, hold `None`, a string or an integer.
 */
module Fields {
  import opened PyStr

  datatype Field = Absent | Null | Str(s: string) | Int(i: int)

  /** `d.get(key, default)` formatted by an f-string: the default when the
      key is missing, `None` for a null value, the integer in decimal. */
  function Show(f: Field, default: string): (r: string)
    ensures f.Absent? ==> r == default
    ensures f.Str? ==> r == f.s
  {
    match f
    case Absent => default
    case Null => "None"
    case Str(s) => s
    case Int(i) => IntToString(i)
  }

  /** Python truthiness of the value (a missing key counts as `None`). */
  predicate Truthy(f: Field) {
    match f
    case Absent => false
    case Null => false
    case Str(s) => s != []
    case Int(i) => i != 0
  }

  /** The `authors` entry of a paper dictionary: missing, `None`, or a list
      whose elements give the value under each author's `name` key. */
  datatype AuthorsField = AuthorsAbsent | AuthorsNull | AuthorList(names: seq<Field>)

  predicate AllStrings(fs: seq<Field>) { forall i :: 0 <= i < |fs| ==> fs[i].Str? }

  /** The strings of a list of string values. */
  function Strings(fs: seq<Field>): (r: seq<string>)
    requires AllStrings(fs)
    ensures |r| == |fs| && forall i :: 0 <= i < |fs| ==> r[i] == fs[i].s
  {
    if |fs| == 0 then [] else [fs[0].s] + Strings(fs[1..])
  }
}
