/**
 * The Student record and its two display strings: `full_name` and `__str__`.
 * The email is kept as opaque text; its format validation is not modelled.
 */
module Students {

  datatype Student = Student(firstName: string, lastName: string, email: string)

  /** `full_name`: the first name, one space, then the last name. */
  function FullName(s: Student): (r: string)
    ensures |r| == |s.firstName| + 1 + |s.lastName|
    ensures r[..|s.firstName|] == s.firstName
    ensures r[|s.firstName|] == ' '
    ensures r[|s.firstName| + 1..] == s.lastName
  {
    s.firstName + " " + s.lastName
  }

  /** `__str__`: the full name followed by the email in parentheses. */
  function Str(s: Student): (r: string)
    ensures |r| == |FullName(s)| + |s.email| + 3
    ensures r[..|FullName(s)|] == FullName(s)
    ensures r[|FullName(s)|..|FullName(s)| + 2] == " ("
    ensures r[|FullName(s)| + 2..|r| - 1] == s.email
    ensures r[|r| - 1] == ')'
  {
    FullName(s) + " (" + s.email + ")"
  }

  /** Position of the first space in `t`, or |t| when there is none. */
  function FirstSpace(t: string): (k: nat)
    ensures k <= |t|
    ensures forall j :: 0 <= j < k ==> t[j] != ' '
    ensures k < |t| ==> t[k] == ' '
  {
    if |t| == 0 || t[0] == ' ' then 0 else 1 + FirstSpace(t[1..])
  }

  /** Reads a full name back into its first and last names, splitting at the first space. */
  function SplitFullName(t: string): (r: (string, string))
    ensures |t| > 0 && ' ' in t ==> |r.0| + 1 + |r.1| == |t|
    ensures ' ' !in r.0
  {
    var k := FirstSpace(t);
    if k < |t| then (t[..k], t[k + 1..]) else (t, "")
  }

  /**
   * The full name determines the first and last names whenever the first
   * name holds no space: splitting at the first space inverts FullName.
   */
  lemma FullNameSplits(s: Student)
    requires ' ' !in s.firstName
    ensures SplitFullName(FullName(s)) == (s.firstName, s.lastName)
  {
    var t := FullName(s);
    var n := |s.firstName|;
    assert forall j :: 0 <= j < n ==> t[j] == s.firstName[j];
    assert FirstSpace(t) == n;
  }
}
