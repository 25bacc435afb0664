/** The guard of the task form's submit handler: a task is added only when
    its title, with white space trimmed from both ends, is not empty and a
    deadline has been chosen. */
module Form {

  /** The value of the form's date input: empty, or a calendar day. */
  datatype DateInput = Blank | Day(day: int)

  /** The characters `String.prototype.trim` strips: ECMAScript's WhiteSpace
      (tab, vertical tab, form feed, the byte-order mark and every
      space separator of category Zs) and LineTerminator. */
  predicate IsWhiteSpace(c: char) {
    var n := c as int;
    n == 0x09 || n == 0x0B || n == 0x0C || n == 0x20 || n == 0xA0 || n == 0xFEFF
    || n == 0x1680 || (0x2000 <= n <= 0x200A) || n == 0x202F || n == 0x205F || n == 0x3000
    || n == 0x0A || n == 0x0D || n == 0x2028 || n == 0x2029
  }

  /** `s` without its leading white space. */
  function TrimStart(s: string): (r: string)
    ensures |r| <= |s| && r == s[|s| - |r|..]
    ensures forall i :: 0 <= i < |s| - |r| ==> IsWhiteSpace(s[i])
    ensures r != [] ==> !IsWhiteSpace(r[0])
  {
    if s != [] && IsWhiteSpace(s[0]) then
      var r := TrimStart(s[1..]);
      assert s[1..][|s| - 1 - |r|..] == s[|s| - |r|..];
      r
    else s
  }

  /** `s` without its trailing white space. */
  function TrimEnd(s: string): (r: string)
    ensures |r| <= |s| && r == s[..|r|]
    ensures forall i :: |r| <= i < |s| ==> IsWhiteSpace(s[i])
    ensures r != [] ==> !IsWhiteSpace(r[|r| - 1])
  {
    if s != [] && IsWhiteSpace(s[|s| - 1]) then TrimEnd(s[..|s| - 1]) else s
  }

  /** `String.prototype.trim`. */
  function Trim(s: string): (r: string)
    ensures r == [] <==> forall i :: 0 <= i < |s| ==> IsWhiteSpace(s[i])
    ensures r != [] ==> !IsWhiteSpace(r[0]) && !IsWhiteSpace(r[|r| - 1])
  {
    var front := TrimStart(s);
    var d := |s| - |front|;
    assert forall i :: 0 <= i < |front| ==> front[i] == s[d + i];
    TrimEnd(front)
  }

  /** The condition `title.trim() && deadlne` of the submit handler: some
      character of the title is not white space, and a day is chosen. */
  predicate Submittable(title: string, deadline: DateInput) {
    Trim(title) != [] && deadline.Day?
  }

  lemma SubmittableIff(title: string, deadline: DateInput)
    ensures Submittable(title, deadline)
        <==> deadline != Blank && exists i :: 0 <= i < |title| && !IsWhiteSpace(title[i])
  {
  }
}
