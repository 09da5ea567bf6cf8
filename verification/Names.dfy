/** Small data types shared by every module. */
module Basics {
  datatype Option<+T> = None | Some(value: T)

  datatype Result<+T, +E> = Ok(value: T) | Err(error: E)

  /** The octets of files and keys. */
  type Bytes = seq<bv8>

  /** An operation of the environment: it succeeds or fails. */
  method Attempt() returns (ok: bool) {
    ok := *;
  }
}

/** File names as the service and the engine see them: accepted bundle names, route segments, extensions. */
module Names {
  predicate IsAlnum(c: char) {
    'a' <= c <= 'z' || 'A' <= c <= 'Z' || '0' <= c <= '9'
  }

  /** The bundle names that issuance accepts: ^[A-Za-z0-9][A-Za-z0-9._-]{0,63}$ */
  predicate SafeName(name: string) {
    && 1 <= |name| <= 64
    && IsAlnum(name[0])
    && forall i | 1 <= i < |name| :: IsAlnum(name[i]) || name[i] == '.' || name[i] == '_' || name[i] == '-'
  }

  /** Directory entries that inventory walks ignore. */
  predicate Hidden(name: string) {
    name != "" && name[0] == '.'
  }

  function TrimSlashes(path: string): (r: string)
    ensures r <= path
  {
    if path != "" && path[|path| - 1] == '/' then TrimSlashes(path[..|path| - 1]) else path
  }

  function LastElement(path: string): string {
    if path == "" || path[|path| - 1] == '/' then "" else LastElement(path[..|path| - 1]) + [path[|path| - 1]]
  }

  /** filepath.Base on a slash-separated path. */
  function Base(path: string): string {
    if path == "" then "."
    else
      var trimmed := TrimSlashes(path);
      if trimmed == "" then "/" else LastElement(trimmed)
  }

  /** filepath.Ext: the suffix of the last element that starts at its last dot. */
  function Ext(path: string): string {
    if path == "" || path[|path| - 1] == '/' then ""
    else if path[|path| - 1] == '.' then "."
    else
      var before := Ext(path[..|path| - 1]);
      if before == "" then "" else before + [path[|path| - 1]]
  }

  lemma ExtOfThreeLetters(stem: string, a: char, b: char, c: char)
    requires a !in "./" && b !in "./" && c !in "./"
    ensures Ext(stem + ['.', a, b, c]) == ['.', a, b, c]
  {
    var path := stem + ['.', a, b, c];
    var dot := stem + ['.'];
    assert Ext(dot) == ".";
    assert path[..|path| - 1] == dot + [a, b];
    assert (dot + [a, b])[..|dot| + 1] == dot + [a];
    assert (dot + [a])[..|dot|] == dot;
    assert Ext(dot + [a]) == ['.', a];
    assert Ext(dot + [a, b]) == ['.', a, b];
  }

  predicate SafeRouteSegment(value: string) {
    && value != "" && value != "." && value != ".."
    && Base(value) == value
    && forall i | 0 <= i < |value| :: value[i] != '\0' && value[i] != '/' && value[i] != '\\'
  }

  lemma {:induction false} LastElementOfPlainName(name: string)
    requires '/' !in name
    ensures LastElement(name) == name
  {
    if name != "" {
      LastElementOfPlainName(name[..|name| - 1]);
      assert name == name[..|name| - 1] + [name[|name| - 1]];
    }
  }

  /** The Base comparison adds nothing once separators are refused: this is the whole route filter. */
  lemma RouteSegmentMeaning(value: string)
    ensures SafeRouteSegment(value) <==>
            value != "" && value != "." && value != ".." && '\0' !in value && '/' !in value && '\\' !in value
  {
    if '/' !in value {
      LastElementOfPlainName(value);
    }
  }

  /** Every name that issuance accepts can be listed, downloaded and revoked later. */
  lemma AcceptedNamesAreRoutable(name: string)
    requires SafeName(name)
    ensures SafeRouteSegment(name) && !Hidden(name)
  {
    RouteSegmentMeaning(name);
  }
}
