/**
 * `extractUUID` of app/utils/helper.ts: removes a drop-zone prefix from a
 * zone name. The source replaces the first match of an anchored regular
 * expression; with its default pattern `^(before|after|into)-` that is
 * "strip the first alternative that is a prefix, once".
 */
module Helper {

  /** The alternatives of the default pattern, in the order the regex tries them. */
  const ZonePrefixes: seq<string> := ["before-", "after-", "into-"]

  /**
   * Strips the first alternative of `alts` that is a prefix of `s`; a
   * string matching none of them is returned as is.
   */
  function StripFirstPrefix(alts: seq<string>, s: string): (r: string)
    ensures |r| <= |s| && r == s[|s| - |r|..]
    ensures (forall i :: 0 <= i < |alts| ==> !(alts[i] <= s)) ==> r == s
    ensures forall i :: 0 <= i < |alts| && alts[i] <= s && (forall j :: 0 <= j < i ==> !(alts[j] <= s)) ==> r == s[|alts[i]|..]
  {
    if |alts| == 0 then s
    else if alts[0] <= s then s[|alts[0]|..]
    else
      var r := StripFirstPrefix(alts[1..], s);
      assert forall i :: 1 <= i < |alts| ==> alts[i] == alts[1..][i - 1];
      r
  }

  /** `extractUUID(id)` with its default pattern. */
  function ExtractUUID(id: string): (r: string)
    ensures |r| <= |id| && r == id[|id| - |r|..]
  {
    StripFirstPrefix(ZonePrefixes, id)
  }

  lemma StripBefore(x: string)
    ensures ExtractUUID("before-" + x) == x
  {
    assert ("before-" + x)[..7] == "before-";
  }

  lemma StripAfter(x: string)
    ensures ExtractUUID("after-" + x) == x
  {
    var a := "after-" + x;
    assert a[..6] == "after-";
    assert a[0] != "before-"[0];
    assert ZonePrefixes[1..] == ["after-", "into-"];
    assert StripFirstPrefix(ZonePrefixes, a) == StripFirstPrefix(["after-", "into-"], a);
  }

  lemma StripInto(x: string)
    ensures ExtractUUID("into-" + x) == x
  {
    var i := "into-" + x;
    assert i[..5] == "into-";
    assert i[0] != "before-"[0] && i[0] != "after-"[0];
    assert ZonePrefixes[1..] == ["after-", "into-"];
    assert ["after-", "into-"][1..] == ["into-"];
    assert StripFirstPrefix(ZonePrefixes, i) == StripFirstPrefix(["after-", "into-"], i);
    assert StripFirstPrefix(["after-", "into-"], i) == StripFirstPrefix(["into-"], i);
  }

  /** Each of the three prefixes is stripped, and only once: `into-before-x` gives `before-x`. */
  lemma ExtractUUIDStripsPrefix(x: string)
    ensures ExtractUUID("before-" + x) == x
    ensures ExtractUUID("after-" + x) == x
    ensures ExtractUUID("into-" + x) == x
  {
    StripBefore(x);
    StripAfter(x);
    StripInto(x);
  }

  /** A name without one of the three leading prefixes comes back unchanged. */
  lemma ExtractUUIDUnprefixed(id: string)
    requires !("before-" <= id) && !("after-" <= id) && !("into-" <= id)
    ensures ExtractUUID(id) == id
  {
  }

  /** The pattern is anchored and not global: only the leading prefix goes. */
  lemma ExtractUUIDNested(x: string)
    ensures ExtractUUID("into-before-" + x) == "before-" + x
  {
    assert "into-before-" + x == "into-" + ("before-" + x);
    StripInto("before-" + x);
  }
}
