/** The watch-list: each canonical school name with the search terms that
    recognise it, in the order the monitor tries them. */
module Registry {

  datatype School = School(name: string, terms: seq<string>)

  /** The registry the monitor is started with; a Python dict iterates in
      insertion order, so the order of schools and of terms is significant. */
  const Schools: seq<School> := [
    School("URSULINE", ["URSULINE", "URSULINE HIGH"]),
    School("BOARDMAN", ["BOARDMAN", "BOARDMAN LOCAL"]),
    School("MCCTC", ["MCCTC", "MAHONING COUNTY CAREER", "CAREER AND TECHNICAL", "MAHONING COUNTY CTC"]),
    School("POLAND", ["POLAND", "POLAND LOCAL"]),
    School("BEAVER", ["BEAVER", "BEAVER LOCAL", "BEAVER SCHOOLS"]),
    School("GIRARD", ["GIRARD", "GIRARD LOCAL", "GIRARD SCHOOLS"])
  ]

  /** Canonical names are dictionary keys, hence distinct. */
  ghost predicate DistinctNames(reg: seq<School>)
  {
    forall i, j :: 0 <= i < j < |reg| ==> reg[i].name != reg[j].name
  }

  /** A canonical name is made of upper-case letters and spaces. */
  ghost predicate PlainName(name: string)
  {
    forall k :: 0 <= k < |name| ==> 'A' <= name[k] <= 'Z' || name[k] == ' '
  }

  /** What the rest of the model relies on about a registry. */
  ghost predicate Valid(reg: seq<School>)
  {
    && DistinctNames(reg)
    && forall i :: 0 <= i < |reg| ==> PlainName(reg[i].name)
  }

  /** The registry a school name belongs to, as a set. */
  function Names(reg: seq<School>): (names: set<string>)
    ensures forall i :: 0 <= i < |reg| ==> reg[i].name in names
    ensures forall n :: n in names ==> exists i :: 0 <= i < |reg| && reg[i].name == n
  {
    set i | 0 <= i < |reg| :: reg[i].name
  }

  /** The built-in watch-list satisfies the registry invariants. */
  lemma SchoolsValid()
    ensures Valid(Schools)
    ensures |Schools| == 6
    ensures forall i :: 0 <= i < |Schools| ==> |Schools[i].terms| > 0 && Schools[i].terms[0] == Schools[i].name
  {
  }
}
