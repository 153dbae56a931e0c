/** Handles and the space each one belongs to. A handle is a string such as "alice@bitcoin" or
    "@bitcoin"; its space is the part from the first '@' or '#' on. */
module Names {

  datatype Option<+T> = None | Some(value: T) {
    function GetOr(default: T): T {
      match this
      case Some(v) => v
      case None => default
    }
  }

  datatype Result<+T> = Success(value: T) | Failure(message: string)

  predicate IsMarker(c: char) {
    c == '@' || c == '#'
  }

  /** The part of `s` from its first marker on; empty when it has none. */
  function FromMarker(s: string): string {
    if s == "" || IsMarker(s[0]) then s else FromMarker(s[1..])
  }

  /** `SyncRecord::space_name`. */
  function SpaceName(handle: string): string {
    var suffix := FromMarker(handle);
    if suffix == "" then handle else suffix
  }

  /** A root row is one whose handle is its own space. */
  predicate IsRoot(handle: string) {
    handle == SpaceName(handle)
  }

  /** What the suffix is: it starts at the first marker. */
  lemma {:induction false} FromMarkerIsSuffix(s: string)
    ensures |FromMarker(s)| <= |s|
    ensures FromMarker(s) == s[|s| - |FromMarker(s)|..]
    ensures forall i | 0 <= i < |s| - |FromMarker(s)| :: s[i] != '@' && s[i] != '#'
    ensures FromMarker(s) != "" ==> FromMarker(s)[0] == '@' || FromMarker(s)[0] == '#'
    decreases |s|
  {
    if s != "" && !IsMarker(s[0]) {
      FromMarkerIsSuffix(s[1..]);
    }
  }

  /** The space of any handle is a root, so the root looked up for a sub-handle is looked up
      under a name that really is a root row's. */
  lemma SpaceNameIsRoot(handle: string)
    ensures IsRoot(SpaceName(handle))
  {
    FromMarkerIsSuffix(handle);
  }

  /** A handle is a root exactly when it starts with a marker or has none. */
  lemma RootShape(handle: string)
    ensures IsRoot(handle) <==>
      || (|handle| > 0 && (handle[0] == '@' || handle[0] == '#'))
      || forall i | 0 <= i < |handle| :: handle[i] != '@' && handle[i] != '#'
  {
    FromMarkerIsSuffix(handle);
  }
}
