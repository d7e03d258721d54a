/** `String.prototype.split` on a one-character separator and `Array.prototype.join`,
    the two string operations the address handling is built from. */
module Text {

  /** `s.split(sep)`: the maximal separator-free pieces of `s`, in order. As in JavaScript,
      the empty string splits into one empty piece, and adjacent separators yield an
      empty piece between them. */
  function Split(s: string, sep: char): (parts: seq<string>)
    ensures |parts| >= 1
    ensures forall i :: 0 <= i < |parts| ==> sep !in parts[i]
    ensures Join(parts, sep) == s
    decreases |s|
  {
    if s == [] then [[]]
    else
      var rest := Split(s[1..], sep);
      if s[0] == sep then [[]] + rest
      else [[s[0]] + rest[0]] + rest[1..]
  }

  /** `parts.join(sep)`: the pieces with one separator between neighbours. */
  function Join(parts: seq<string>, sep: char): string
    decreases |parts|
  {
    if |parts| == 0 then []
    else if |parts| == 1 then parts[0]
    else parts[0] + [sep] + Join(parts[1..], sep)
  }

  /** Splitting undoes joining, provided no piece contains the separator. */
  lemma {:induction false} SplitJoin(parts: seq<string>, sep: char)
    requires |parts| >= 1
    requires forall i :: 0 <= i < |parts| ==> sep !in parts[i]
    ensures Split(Join(parts, sep), sep) == parts
    decreases |parts|, |parts[0]|
  {
    var p := parts[0];
    if |parts| == 1 {
      if p != [] {
        SplitJoin([p[1..]], sep);
        assert p == [p[0]] + p[1..];
      }
    } else {
      var tail := Join(parts[1..], sep);
      assert Join(parts, sep) == p + [sep] + tail;
      if p == [] {
        SplitJoin(parts[1..], sep);
        assert ([sep] + tail)[1..] == tail;
        assert parts == [[]] + parts[1..];
      } else {
        var shorter := [p[1..]] + parts[1..];
        assert shorter[1..] == parts[1..];
        assert forall i :: 0 <= i < |shorter| ==> sep !in shorter[i] by {
          forall i | 0 <= i < |shorter| ensures sep !in shorter[i] {
            if i == 0 {
              assert sep !in p;
            } else {
              assert shorter[i] == parts[i];
            }
          }
        }
        SplitJoin(shorter, sep);
        assert Join(shorter, sep) == p[1..] + [sep] + tail;
        assert (p + [sep] + tail)[1..] == p[1..] + [sep] + tail;
        assert [p[0]] + p[1..] == p;
        assert parts == [p] + parts[1..];
      }
    }
  }

}
