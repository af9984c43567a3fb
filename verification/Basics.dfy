/** Datatypes shared by the models. */
module Basics {

  datatype Option<+T> = None | Some(value: T)

  /** The failure of an operation carries the error the program reports. */
  datatype Result<+T, +E> = Ok(value: T) | Err(error: E)

  /** One octet of a file or of a UTF-8 text. */
  type byte = b: int | 0 <= b < 256

  function Max(a: nat, b: nat): nat {
    if a < b then b else a
  }

  function Min(a: nat, b: nat): nat {
    if a < b then a else b
  }

  /** A part of a part is a part of the whole. */
  lemma PartOfPart<T>(s: seq<T>, lo: nat, hi: nat, from: nat, to: nat)
    requires lo <= hi <= |s| && from <= to <= hi - lo
    ensures s[lo..hi][from..to] == s[lo + from..lo + to]
  {
    var a, b := s[lo..hi][from..to], s[lo + from..lo + to];
    forall i | 0 <= i < |a| ensures a[i] == b[i] {
    }
  }
}
