/** The stored-filename codec of the firmware routes: the name multer's filename callback
    gives an upload, the reading of a name in getFileInfo, and the whitelist the delete
    route applies to names. */
module Naming {
  import opened Wrappers
  import opened Strings

  const DefaultVersion: string := "v1.0.0"
  const UnknownVersion: string := "unknown"
  const BinSuffix: string := ".bin"

  predicate IsAsciiAlnum(c: char)
  {
    'a' <= c <= 'z' || 'A' <= c <= 'Z' || '0' <= c <= '9'
  }

  /** The characters the sanitizer keeps: [a-zA-Z0-9.-]. */
  predicate IsVersionChar(c: char)
  {
    IsAsciiAlnum(c) || c == '.' || c == '-'
  }

  /** The characters the delete route allows: [a-zA-Z0-9._-]. */
  predicate IsNameChar(c: char)
  {
    IsVersionChar(c) || c == '_'
  }

  /** `version.replace(/[^a-zA-Z0-9.-]/g, '_')`: one-for-one replacement. */
  function Sanitize(s: string): (r: string)
    ensures |r| == |s|
    ensures forall i :: 0 <= i < |s| && IsVersionChar(s[i]) ==> r[i] == s[i]
    ensures forall i :: 0 <= i < |s| && !IsVersionChar(s[i]) ==> r[i] == '_'
  {
    if s == [] then [] else [if IsVersionChar(s[0]) then s[0] else '_'] + Sanitize(s[1..])
  }

  /** `req.body.version || 'v1.0.0'`: a missing or empty label falls back to the default. */
  function Label(version: Option<string>): string
  {
    if version.Some? && version.value != [] then version.value else DefaultVersion
  }

  /** The version segment of a stored name: never empty, and made of name characters only. */
  function SanitizedVersion(version: Option<string>): (r: string)
    ensures |r| == |Label(version)| > 0
    ensures forall i :: 0 <= i < |r| ==> IsNameChar(r[i])
  {
    Sanitize(Label(version))
  }

  /** The delete route's test /^[a-zA-Z0-9._-]+\.bin$/: a non-empty run of name
      characters followed by ".bin" at the very end. */
  predicate IsSafeFileName(s: string)
  {
    && |s| > |BinSuffix|
    && EndsWith(s, BinSuffix)
    && forall i :: 0 <= i < |s| - |BinSuffix| ==> IsNameChar(s[i])
  }

  /** The name multer's filename callback gives an upload: `<sanitized>_<timestamp>.bin`. */
  function Encode(version: Option<string>, timestamp: nat): string
  {
    SanitizedVersion(version) + "_" + Decimal(timestamp) + BinSuffix
  }

  /** What getFileInfo reads out of a stored name; a timestamp of None stands for NaN. */
  datatype Decoded = Decoded(version: string, timestamp: Option<nat>)

  /** `s || 'unknown'` for a string `s`. */
  function OrUnknown(s: string): (r: string)
    ensures r != []
  {
    if s == [] then UnknownVersion else s
  }

  /** getFileInfo's decoding: drop the first ".bin", split on '_', read the last segment
      as the timestamp and re-join the others as the version. */
  function Decode(name: string): (r: Decoded)
    ensures r.version != []
  {
    var parts := Split(RemoveFirst(name, BinSuffix), '_');
    Decoded(OrUnknown(Join(parts[..|parts| - 1], '_')), ParseInt(parts[|parts| - 1]))
  }

  // ---------------------------------------------------------------------------
  // Sanitization

  /** Sanitizing twice changes nothing more. */
  lemma {:induction false} SanitizeIdempotent(s: string)
    ensures Sanitize(Sanitize(s)) == Sanitize(s)
  {
    if s != [] {
      SanitizeIdempotent(s[1..]);
      assert Sanitize(s)[1..] == Sanitize(s[1..]);
    }
  }

  /** A label is stored as it is exactly when it is made of name characters only. */
  lemma SanitizeFixedIff(s: string)
    ensures Sanitize(s) == s <==> forall i :: 0 <= i < |s| ==> IsNameChar(s[i])
  {
    if Sanitize(s) == s {
      forall i | 0 <= i < |s| ensures IsNameChar(s[i]) {
        assert IsVersionChar(s[i]) || Sanitize(s)[i] == '_';
      }
    }
    if forall i :: 0 <= i < |s| ==> IsNameChar(s[i]) {
      forall i | 0 <= i < |s| ensures Sanitize(s)[i] == s[i] {
        assert IsVersionChar(s[i]) || s[i] == '_';
      }
    }
  }

  // ---------------------------------------------------------------------------
  // Encoding

  /** A missing or empty label is stored under the default "v1.0.0". */
  lemma DefaultLabelUsed(version: Option<string>, timestamp: nat)
    requires version.None? || version.value == []
    ensures Encode(version, timestamp) == DefaultVersion + "_" + Decimal(timestamp) + BinSuffix
  {
    SanitizeFixedIff(DefaultVersion);
  }

  lemma DigitsHaveNoUnderscore(d: string)
    requires AllDigits(d)
    ensures '_' !in d
  {
    forall i | 0 <= i < |d| ensures d[i] != '_' {
      assert IsDigit(d[i]);
    }
  }

  /** Without its suffix, an encoded name splits into the version's own segments and the
      decimal timestamp. */
  lemma EncodedSegments(version: Option<string>, timestamp: nat)
    ensures var n := Encode(version, timestamp);
      Split(n[..|n| - |BinSuffix|], '_') == Split(SanitizedVersion(version), '_') + [Decimal(timestamp)]
  {
    var n := Encode(version, timestamp);
    var d := Decimal(timestamp);
    assert n[..|n| - |BinSuffix|] == SanitizedVersion(version) + ['_'] + d;
    DigitsHaveNoUnderscore(d);
    SplitAppend(SanitizedVersion(version), '_', d);
  }

  /** Two uploads get the same name exactly when they share the millisecond and the
      sanitized version: different timestamps never collide, and a same-millisecond upload
      of an equally sanitized version takes the earlier one's name. */
  lemma EncodeCollisionIff(v1: Option<string>, t1: nat, v2: Option<string>, t2: nat)
    ensures Encode(v1, t1) == Encode(v2, t2) <==> t1 == t2 && SanitizedVersion(v1) == SanitizedVersion(v2)
  {
    var n1, n2 := Encode(v1, t1), Encode(v2, t2);
    if n1 == n2 {
      EncodedSegments(v1, t1);
      EncodedSegments(v2, t2);
      var p1, p2 := Split(SanitizedVersion(v1), '_'), Split(SanitizedVersion(v2), '_');
      assert p1 + [Decimal(t1)] == p2 + [Decimal(t2)];
      assert Decimal(t1) == Decimal(t2) by {
        assert (p1 + [Decimal(t1)])[|p1|] == Decimal(t1);
        assert (p2 + [Decimal(t2)])[|p2|] == Decimal(t2);
      }
      assert |p1| == |p2|;
      assert p1 == (p1 + [Decimal(t1)])[..|p1|];
      assert p2 == (p2 + [Decimal(t2)])[..|p2|];
      JoinSplit(SanitizedVersion(v1), '_');
      JoinSplit(SanitizedVersion(v2), '_');
      DecimalInjective(t1, t2);
    }
  }

  /** Every generated name passes the delete route's whitelist. */
  lemma EncodedNameIsDeletable(version: Option<string>, timestamp: nat)
    ensures IsSafeFileName(Encode(version, timestamp))
  {
    var n := Encode(version, timestamp);
    var sv, d := SanitizedVersion(version), Decimal(timestamp);
    forall i | 0 <= i < |n| - |BinSuffix| ensures IsNameChar(n[i]) {
      if i < |sv| {
        assert n[i] == sv[i];
      } else if i > |sv| {
        assert n[i] == d[i - |sv| - 1];
      }
    }
  }

  /** A name accepted by the delete route is a plain entry of the upload directory. */
  lemma SafeFileNameIsPlainEntry(s: string)
    requires IsSafeFileName(s)
    ensures '/' !in s
    ensures s != "." && s != ".."
  {
    forall i | 0 <= i < |s| ensures s[i] != '/' {
      if i < |s| - |BinSuffix| {
        assert IsNameChar(s[i]);
      } else {
        assert s[|s| - |BinSuffix|..][i - (|s| - |BinSuffix|)] == s[i];
      }
    }
  }

  // ---------------------------------------------------------------------------
  // Decoding

  /** Decoding a name whose ".bin" removal leaves `x + "_" + d`, with `d` free of '_'. */
  lemma DecodeStripped(name: string, x: string, d: string)
    requires '_' !in d
    requires RemoveFirst(name, BinSuffix) == x + ['_'] + d
    ensures Decode(name) == Decoded(OrUnknown(x), ParseInt(d))
  {
    SplitAppend(x, '_', d);
    var parts := Split(x, '_') + [d];
    assert parts[..|parts| - 1] == Split(x, '_');
    JoinSplit(x, '_');
  }

  /** No occurrence of ".bin" starts inside `sv` in `sv + "_" + rest` when `sv` has none. */
  lemma NoBinBeforeSeparator(sv: string, rest: string)
    requires !Contains(sv, BinSuffix)
    ensures forall j: nat :: j < |sv| ==> !OccursAt(sv + ("_" + rest), BinSuffix, j)
  {
    var s := sv + ("_" + rest);
    forall j: nat | j < |sv| ensures !OccursAt(s, BinSuffix, j) {
      if j + |BinSuffix| <= |sv| {
        assert s[j..j + |BinSuffix|] == sv[j..j + |BinSuffix|];
        assert !OccursAt(sv, BinSuffix, j);
      } else if j + |BinSuffix| <= |s| {
        assert s[j..j + |BinSuffix|][|sv| - j] == s[|sv|] == '_';
      }
    }
  }

  /** Removing the first ".bin" from `"_" + d + ".bin"`, `d` all digits, removes the suffix. */
  lemma RemoveSuffixAfterDigits(d: string)
    requires AllDigits(d)
    ensures RemoveFirst("_" + d + BinSuffix, BinSuffix) == "_" + d
  {
    var c := "_" + d;
    forall j: nat | j < |c| ensures !OccursAt(c + BinSuffix, BinSuffix, j) {
      assert (c + BinSuffix)[j..j + |BinSuffix|][0] == c[j];
      if j > 0 { assert c[j] == d[j - 1]; }
    }
    RemoveFirstAfter(c, BinSuffix, BinSuffix);
    assert RemoveFirst(BinSuffix, BinSuffix) == [];
    assert c + BinSuffix == "_" + d + BinSuffix;
  }

  /** With a ".bin" inside `sv`, the removal happens there and leaves the suffix. */
  lemma RemoveWithinVersion(sv: string, d: string)
    requires Contains(sv, BinSuffix)
    ensures RemoveFirst(sv + "_" + d + BinSuffix, BinSuffix) == RemoveFirst(sv, BinSuffix) + ['_'] + (d + BinSuffix)
  {
    var m := ['_'] + (d + BinSuffix);
    assert sv + "_" + d + BinSuffix == sv + m;
    RemoveFirstWithin(sv, m, BinSuffix);
    assert RemoveFirst(sv, BinSuffix) + m == RemoveFirst(sv, BinSuffix) + ['_'] + (d + BinSuffix);
  }

  /** Without a ".bin" inside `sv`, the removal takes the suffix. */
  lemma RemoveAfterVersion(sv: string, d: string)
    requires !Contains(sv, BinSuffix) && AllDigits(d)
    ensures RemoveFirst(sv + "_" + d + BinSuffix, BinSuffix) == sv + ['_'] + d
  {
    var m := "_" + d + BinSuffix;
    assert sv + "_" + d + BinSuffix == sv + m;
    NoBinBeforeSeparator(sv, d + BinSuffix);
    assert m == "_" + (d + BinSuffix);
    RemoveFirstAfter(sv, m, BinSuffix);
    RemoveSuffixAfterDigits(d);
    assert sv + ("_" + d) == sv + ['_'] + d;
  }

  /** The name `sv + "_" + decimal(t) + ".bin"` when `sv` holds a ".bin" of its own. */
  lemma DecodeNameWithBin(sv: string, timestamp: nat)
    requires Contains(sv, BinSuffix)
    ensures Decode(sv + "_" + Decimal(timestamp) + BinSuffix) ==
      Decoded(OrUnknown(RemoveFirst(sv, BinSuffix)), Some(timestamp))
  {
    var d := Decimal(timestamp);
    RemoveWithinVersion(sv, d);
    DigitsHaveNoUnderscore(d);
    assert '_' !in d + BinSuffix;
    DecodeStripped(sv + "_" + d + BinSuffix, RemoveFirst(sv, BinSuffix), d + BinSuffix);
    ParseDecimal(timestamp, BinSuffix);
  }

  /** The name `sv + "_" + decimal(t) + ".bin"` when `sv` holds no ".bin". */
  lemma DecodeNameWithoutBin(sv: string, timestamp: nat)
    requires !Contains(sv, BinSuffix)
    ensures Decode(sv + "_" + Decimal(timestamp) + BinSuffix) == Decoded(OrUnknown(sv), Some(timestamp))
  {
    var d := Decimal(timestamp);
    RemoveAfterVersion(sv, d);
    DigitsHaveNoUnderscore(d);
    DecodeStripped(sv + "_" + d + BinSuffix, sv, d);
    assert d + [] == d;
    ParseDecimal(timestamp, []);
  }

  /** Decoding an encoded name always recovers the timestamp; it recovers the sanitized
      version with its first ".bin" removed (or "unknown" when nothing is left). */
  lemma DecodeEncode(version: Option<string>, timestamp: nat)
    ensures Decode(Encode(version, timestamp)) ==
      Decoded(OrUnknown(RemoveFirst(SanitizedVersion(version), BinSuffix)), Some(timestamp))
  {
    var sv := SanitizedVersion(version);
    if Contains(sv, BinSuffix) {
      DecodeNameWithBin(sv, timestamp);
    } else {
      DecodeNameWithoutBin(sv, timestamp);
      RemoveFirstAbsent(sv, BinSuffix);
    }
  }

  /** The partial round trip: a sanitized version without ".bin" in it comes back
      exactly, underscores included, together with the timestamp. */
  lemma DecodeEncodeExact(version: Option<string>, timestamp: nat)
    requires !Contains(SanitizedVersion(version), BinSuffix)
    ensures Decode(Encode(version, timestamp)) == Decoded(SanitizedVersion(version), Some(timestamp))
  {
    DecodeNameWithoutBin(SanitizedVersion(version), timestamp);
  }

  /** A name without a '_' once its first ".bin" is gone has no version part: it
      decodes to "unknown", and all of it is read as the timestamp. */
  lemma DecodeWithoutSeparator(name: string)
    requires '_' !in RemoveFirst(name, BinSuffix)
    ensures Decode(name) == Decoded(UnknownVersion, ParseInt(RemoveFirst(name, BinSuffix)))
  {
    SplitWithoutSeparator(RemoveFirst(name, BinSuffix), '_');
  }

  /** A ".bin" inside the label is what the first-occurrence removal takes out instead of
      the suffix: "fw.bin2" comes back as "fw2", though the timestamp is still right. */
  lemma InnerBinIsRemoved()
    ensures Decode(Encode(Some("fw.bin2"), 7)) == Decoded("fw2", Some(7))
  {
    var raw := "fw.bin2";
    InnerBinLabel();
    InnerBinRemoval();
    DecodeNameWithBin(raw, 7);
    assert Decimal(7) == "7";
  }

  lemma InnerBinLabel()
    ensures SanitizedVersion(Some("fw.bin2")) == "fw.bin2"
  {
    var raw := "fw.bin2";
    assert Label(Some(raw)) == raw;
    SanitizeFixedIff(raw);
    assert forall i :: 0 <= i < |raw| ==> IsNameChar(raw[i]);
  }

  lemma InnerBinRemoval()
    ensures Contains("fw.bin2", BinSuffix) && RemoveFirst("fw.bin2", BinSuffix) == "fw2"
  {
    var raw := "fw.bin2";
    assert raw[..4][0] != BinSuffix[0];
    assert raw[1..] == "w.bin2";
    assert raw[1..][..4][0] != BinSuffix[0];
    assert raw[1..][1..] == ".bin2";
    assert raw[1..][1..][..4] == BinSuffix;
    assert raw[1..][1..][4..] == "2";
    assert OccursAt(raw, BinSuffix, 2) by {
      assert raw[2..6] == BinSuffix;
    }
  }
}
