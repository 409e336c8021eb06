/**
  The object universe shared by the drivers' communication layer.

  A Java `Object` handed to or received from a driver is classified here by
  its structure alone: an opaque scalar, a `Map` (its entries in iteration
  order), an `Iterable` (its elements in iteration order) or a generic
  `Document` (a name and a wrapped value). A `Value` wrapper is the object it
  wraps, so `Value.get()` is the identity on `Obj`.
 */
module Values {

  datatype Literal = Text(s: string) | Number(n: int) | Flag(b: bool)

  datatype Obj =
    | Scalar(lit: Literal)
    | NativeMap(entries: seq<(string, Obj)>)
    | NativeList(items: seq<Obj>)
    | Doc(doc: Document)

  /** One named field of a generic record. */
  datatype Document = Document(name: string, value: Obj)

  datatype Option<+T> = None | Some(value: T)

  /** A value, or the exception that the Java code would have thrown. */
  datatype Result<+T, +E> = Ok(value: T) | Err(error: E)

  /** `String.indexOf(char)` with "not found" reported as `|s|`. */
  function IndexOf(s: string, c: char): (i: nat)
    ensures i <= |s|
    ensures i < |s| ==> s[i] == c
    ensures forall j :: 0 <= j < i ==> s[j] != c
  {
    if s == [] then 0
    else if s[0] == c then 0
    else 1 + IndexOf(s[1..], c)
  }

  /** The pieces of `s` between occurrences of `c`, empty pieces included. */
  function Pieces(s: string, c: char): (r: seq<string>)
    ensures |r| > 0
    decreases |s|
  {
    var i := IndexOf(s, c);
    if i == |s| then [s] else [s[..i]] + Pieces(s[i + 1..], c)
  }

  /** The pieces joined back with `c` between each two of them. */
  function Join(ps: seq<string>, c: char): string
    requires |ps| > 0
  {
    if |ps| == 1 then ps[0] else ps[0] + [c] + Join(ps[1..], c)
  }

  /** Splitting at every `c` loses nothing: the pieces hold no `c` and joining them gives `s` back. */
  lemma {:induction false} JoinPieces(s: string, c: char)
    ensures Join(Pieces(s, c), c) == s
    ensures forall k :: 0 <= k < |Pieces(s, c)| ==> c !in Pieces(s, c)[k]
    decreases |s|
  {
    var i := IndexOf(s, c);
    var ps := Pieces(s, c);
    if i < |s| {
      var rest := s[i + 1..];
      JoinPieces(rest, c);
      assert ps == [s[..i]] + Pieces(rest, c);
      assert ps[1..] == Pieces(rest, c);
      assert s == s[..i] + [c] + rest;
      forall k | 0 <= k < |ps| ensures c !in ps[k] {
        if k > 0 { assert ps[k] == Pieces(rest, c)[k - 1]; }
      }
    } else {
      assert ps == [s];
    }
  }

  /**
    `ValueUtil.convertToList`: an iterable value gives its elements, any
    other value gives the one-element list holding it.
   */
  function ConvertToList(v: Obj): seq<Obj> {
    if v.NativeList? then v.items else [v]
  }
}
