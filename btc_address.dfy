/** The loan backend's Bitcoin address check (`validate_btc_address` and its
    helpers). It classifies an address by its prefix and then applies a
    per-type byte-length window, a per-type alphabet and, for the segwit
    types, a rule on the piece after the first '1'. It resembles Base58 and
    Bech32/Bech32m addresses but computes no checksum, and its "bech32"
    alphabet is all of [0-9a-z]. */
module BtcAddress {
  import opened Common
  import opened Text

  datatype BtcAddressType =
    | Legacy
    | ScriptHash
    | Bech32
    | Taproot
    | TestnetLegacy
    | TestnetScript
    | TestnetBech32
    | TestnetTaproot
    | Invalid

  const EmptyMsg: string := "Bitcoin address cannot be empty"
  const FormatMsg: string := "Invalid Bitcoin address format. Must be a valid BTC address"
  const LengthMsg: string := "Invalid Bitcoin address length for the given format"
  const CharsMsg: string := "Bitcoin address contains invalid characters"
  const MissingSeparatorMsg: string := "Invalid Bech32 address format: missing separator"
  const DataPartMsg: string := "Invalid Bech32 address format: data part too short"

  /** The Base58 literal in `validate_address_by_type`, written as its six runs of
      consecutive characters. */
  const Base58Chars: string :=
    "123456789" + "ABCDEFGH" + "JKLMN" + "PQRSTUVWXYZ" + "abcdefghijk" + "mnopqrstuvwxyz"
  const Bech32Chars: string := "0123456789abcdefghijklmnopqrstuvwxyz"

  /** The types checked against the Base58 alphabet and the 26..34 window. */
  predicate IsBase58Type(t: BtcAddressType)
  {
    t.Legacy? || t.ScriptHash? || t.TestnetLegacy? || t.TestnetScript?
  }

  /** The types checked against [0-9a-z] and the separator rule. */
  predicate IsSegwitType(t: BtcAddressType)
  {
    t.Bech32? || t.Taproot? || t.TestnetBech32? || t.TestnetTaproot?
  }

  /** `identify_btc_address_type`: the first prefix that matches, in the
      order of `identify_btc_address_type`; blank input and every other prefix give `Invalid`. */
  function IdentifyBtcAddressType(address: string): (t: BtcAddressType)
    ensures IsBlank(address) ==> t == Invalid
  {
    if Trim(address) == [] then Invalid
    else if "1" <= address then Legacy
    else if "3" <= address then ScriptHash
    else if "bc1q" <= address then Bech32
    else if "bc1p" <= address then Taproot
    else if "m" <= address || "n" <= address then TestnetLegacy
    else if "2" <= address then TestnetScript
    else if "tb1q" <= address then TestnetBech32
    else if "tb1p" <= address then TestnetTaproot
    // `identify_btc_address_type` singles out "bc1" followed by anything else, with the same outcome
    else if "bc1" <= address then Invalid
    else Invalid
  }

  /** The `valid_length` match: inclusive byte-length windows per type. */
  predicate LengthFits(t: BtcAddressType, len: nat)
  {
    match t
    case Legacy | ScriptHash | TestnetLegacy | TestnetScript => 26 <= len <= 34
    case Bech32 | TestnetBech32 => 42 <= len <= 62
    case Taproot | TestnetTaproot => 62 <= len <= 64
    case Invalid => false
  }

  /** The `valid_chars` match: every character is in the type's alphabet. */
  predicate CharsFit(t: BtcAddressType, address: string)
  {
    match t
    case Legacy | ScriptHash | TestnetLegacy | TestnetScript => AllIn(address, Base58Chars)
    case Bech32 | Taproot | TestnetBech32 | TestnetTaproot => AllIn(address, Bech32Chars)
    case Invalid => false
  }

  /** `validate_address_by_type`: length first, then alphabet, then for the
      segwit types the separator and the length of the second '1'-piece. */
  function ValidateAddressByType(address: string, t: BtcAddressType): (r: Result<()>)
    ensures !LengthFits(t, Utf8Len(address)) ==> r == Err(LengthMsg)
    ensures LengthFits(t, Utf8Len(address)) && !CharsFit(t, address) ==> r == Err(CharsMsg)
    ensures r.Ok? ==> t != Invalid && LengthFits(t, Utf8Len(address)) && CharsFit(t, address)
  {
    if !LengthFits(t, Utf8Len(address)) then Err(LengthMsg)
    else if !CharsFit(t, address) then Err(CharsMsg)
    else if IsSegwitType(t) then
      if '1' !in address then Err(MissingSeparatorMsg)
      else
        var parts := Split(address, '1');
        if |parts| < 2 || Utf8Len(parts[1]) < 6 then Err(DataPartMsg)
        else Ok(())
    else Ok(())
  }

  /** `validate_btc_address`. */
  function ValidateBtcAddress(address: string): (r: Result<()>)
    ensures IsBlank(address) ==> r == Err(EmptyMsg)
    ensures !IsBlank(address) && IdentifyBtcAddressType(address) == Invalid ==> r == Err(FormatMsg)
    ensures r.Ok? ==> IdentifyBtcAddressType(address) != Invalid
  {
    if Trim(address) == [] then Err(EmptyMsg)
    else
      var t := IdentifyBtcAddressType(address);
      if t == Invalid then Err(FormatMsg)
      else ValidateAddressByType(address, t)
  }

  // ---------------------------------------------------------------------
  // An independent description of the accepted addresses
  // ---------------------------------------------------------------------

  /** Base58 as the legacy check uses it: digits other than 0, and letters
      other than O, I and l. */
  predicate IsBase58Char(c: char)
  {
    || ('1' <= c <= '9')
    || ('A' <= c <= 'Z' && c != 'I' && c != 'O')
    || ('a' <= c <= 'z' && c != 'l')
  }

  /** The check's "bech32" alphabet: ASCII digits and lower-case letters. */
  predicate IsLowerAlnum(c: char)
  {
    ('0' <= c <= '9') || ('a' <= c <= 'z')
  }

  /** The characters from `lo` to `hi`, in order. */
  function CharRange(lo: char, hi: char): (r: string)
    requires lo <= hi && IsAscii(hi)
    ensures forall c :: c in r <==> lo <= c <= hi
  {
    var r := seq(hi as int - lo as int + 1, i requires 0 <= i <= hi as int - lo as int => (lo as int + i) as char);
    assert forall i :: 0 <= i < |r| ==> lo <= r[i] <= hi;
    assert forall c :: lo <= c <= hi ==> c in r by {
      forall c | lo <= c <= hi
        ensures c in r
      {
        assert r[c as int - lo as int] == c;
      }
    }
    r
  }

  lemma Base58CharsAre(c: char)
    ensures c in Base58Chars <==> IsBase58Char(c)
  {
    RangeLiteral("123456789", '1', '9');
    RangeLiteral("ABCDEFGH", 'A', 'H');
    RangeLiteral("JKLMN", 'J', 'N');
    RangeLiteral("PQRSTUVWXYZ", 'P', 'Z');
    RangeLiteral("abcdefghijk", 'a', 'k');
    RangeLiteral("mnopqrstuvwxyz", 'm', 'z');
  }

  /** A literal that spells out a run of consecutive characters. */
  lemma RangeLiteral(s: string, lo: char, hi: char)
    requires lo <= hi && IsAscii(hi)
    requires |s| == hi as int - lo as int + 1
    requires forall i :: 0 <= i < |s| ==> s[i] as int == lo as int + i
    ensures forall c :: c in s <==> lo <= c <= hi
  {
    assert s == CharRange(lo, hi);
  }

  lemma Bech32CharsAre(c: char)
    ensures c in Bech32Chars <==> IsLowerAlnum(c)
  {
    assert Bech32Chars == CharRange('0', '9') + CharRange('a', 'z');
  }

  /** Length of the piece right after the three-character "bc1"/"tb1"
      prefix, up to the next '1' or the end. */
  function DataPartLength(address: string): nat
    requires |address| >= 3
  {
    IndexOrEnd(address[3..], '1')
  }

  /** Legacy-style addresses: a leading 1, 3, m, n or 2, 26 to 34
      characters, all Base58. */
  ghost predicate AcceptedBase58(a: string)
  {
    && 26 <= |a| <= 34
    && (a[0] == '1' || a[0] == '3' || a[0] == 'm' || a[0] == 'n' || a[0] == '2')
    && forall i :: 0 <= i < |a| ==> IsBase58Char(a[i])
  }

  /** Segwit-style addresses: "bc1"/"tb1", a version letter, a character
      count in `lo..hi`, digits and lower-case letters only, and at least six
      characters between the "1" of the prefix and the next "1". */
  ghost predicate AcceptedSegwit(a: string, version: char, lo: nat, hi: nat)
  {
    && lo <= |a| <= hi
    && |a| >= 4
    && ((a[0] == 'b' && a[1] == 'c') || (a[0] == 't' && a[1] == 'b'))
    && a[2] == '1'
    && a[3] == version
    && (forall i :: 0 <= i < |a| ==> IsLowerAlnum(a[i]))
    && DataPartLength(a) >= 6
  }

  /** The addresses the check accepts: legacy style, version-0 segwit style
      with 42 to 62 characters, or taproot style with 62 to 64. */
  ghost predicate Accepted(a: string)
  {
    AcceptedBase58(a) || AcceptedSegwit(a, 'q', 42, 62) || AcceptedSegwit(a, 'p', 62, 64)
  }

  // ---------------------------------------------------------------------
  // Classification by prefix
  // ---------------------------------------------------------------------

  /** The prefixes that announce each type. */
  predicate StartsAs(a: string, t: BtcAddressType)
  {
    match t
    case Legacy => "1" <= a
    case ScriptHash => "3" <= a
    case Bech32 => "bc1q" <= a
    case Taproot => "bc1p" <= a
    case TestnetLegacy => "m" <= a || "n" <= a
    case TestnetScript => "2" <= a
    case TestnetBech32 => "tb1q" <= a
    case TestnetTaproot => "tb1p" <= a
    case Invalid => false
  }

  /** No address announces two types, so the order of the checks in
      `identify_btc_address_type` does not matter. */
  lemma PrefixesExclusive(a: string, t: BtcAddressType, u: BtcAddressType)
    requires StartsAs(a, t) && StartsAs(a, u)
    ensures t == u
  {
    StartsAsMeans(a, t);
    StartsAsMeans(a, u);
  }

  /** What each prefix says about the leading characters. */
  lemma StartsAsMeans(a: string, t: BtcAddressType)
    requires StartsAs(a, t)
    ensures |a| >= 1
    ensures t.Legacy? ==> a[0] == '1'
    ensures t.ScriptHash? ==> a[0] == '3'
    ensures t.TestnetLegacy? ==> a[0] == 'm' || a[0] == 'n'
    ensures t.TestnetScript? ==> a[0] == '2'
    ensures IsSegwitType(t) ==> |a| >= 4 && a[2] == '1'
    ensures t.Bech32? || t.Taproot? ==> a[0] == 'b' && a[1] == 'c'
    ensures t.TestnetBech32? || t.TestnetTaproot? ==> a[0] == 't' && a[1] == 'b'
    ensures t.Bech32? || t.TestnetBech32? ==> a[3] == 'q'
    ensures t.Taproot? || t.TestnetTaproot? ==> a[3] == 'p'
  {
    if t.TestnetLegacy? {
      assert "m" <= a ==> a[0] == 'm';
    }
    if IsSegwitType(t) {
      var p := a[..4];
      assert p == "bc1q" || p == "bc1p" || p == "tb1q" || p == "tb1p";
      assert a[0] == p[0] && a[1] == p[1] && a[2] == p[2] && a[3] == p[3];
    }
  }

  /** A non-`Invalid` classification is backed by the type's prefix. */
  lemma IdentifiedHasPrefix(a: string)
    requires IdentifyBtcAddressType(a) != Invalid
    ensures StartsAs(a, IdentifyBtcAddressType(a))
  {
  }

  /** An address carrying a type's prefix is classified as that type. */
  lemma PrefixIdentifies(a: string, t: BtcAddressType)
    requires StartsAs(a, t)
    ensures IdentifyBtcAddressType(a) == t
  {
    StartsAsMeans(a, t);
    assert !IsWhitespace(a[0]);
    var r := IdentifyBtcAddressType(a);
    if r != Invalid {
      PrefixesExclusive(a, r, t);
    }
  }

  /** `identify_btc_address_type` returns the type whose prefix the address
      carries, and `Invalid` exactly when it carries none; in particular its
      blank check never decides anything the prefix checks would not, and the
      order of its checks does not matter. */
  lemma IdentifyByPrefix(a: string, t: BtcAddressType)
    ensures IdentifyBtcAddressType(a) == t <==>
              StartsAs(a, t) || (t == Invalid && forall u :: !StartsAs(a, u))
  {
    var r := IdentifyBtcAddressType(a);
    if r != Invalid {
      IdentifiedHasPrefix(a);
    }
    if StartsAs(a, t) {
      PrefixIdentifies(a, t);
    }
    forall u | StartsAs(a, u)
      ensures r == u
    {
      PrefixIdentifies(a, u);
    }
  }

  // ---------------------------------------------------------------------
  // What the validator accepts
  // ---------------------------------------------------------------------

  /** The `valid_chars` alphabets are the legacy Base58 set and [0-9a-z]. */
  lemma CharsFitMeans(t: BtcAddressType, a: string)
    ensures IsBase58Type(t) ==> (CharsFit(t, a) <==> forall i :: 0 <= i < |a| ==> IsBase58Char(a[i]))
    ensures IsSegwitType(t) ==> (CharsFit(t, a) <==> forall i :: 0 <= i < |a| ==> IsLowerAlnum(a[i]))
  {
    if IsBase58Type(t) {
      Base58Fits(a);
    } else if IsSegwitType(t) {
      Bech32Fits(a);
    }
  }

  /** Every character is in the legacy literal iff every one is Base58. */
  lemma Base58Fits(a: string)
    ensures AllIn(a, Base58Chars) <==> forall i :: 0 <= i < |a| ==> IsBase58Char(a[i])
  {
    forall c
      ensures c in Base58Chars <==> IsBase58Char(c)
    {
      Base58CharsAre(c);
    }
    AllInExactly(a, Base58Chars, IsBase58Char);
  }

  /** Every character is in the "bech32" literal iff every one is a digit
      or a lower-case letter. */
  lemma Bech32Fits(a: string)
    ensures AllIn(a, Bech32Chars) <==> forall i :: 0 <= i < |a| ==> IsLowerAlnum(a[i])
  {
    forall c
      ensures c in Bech32Chars <==> IsLowerAlnum(c)
    {
      Bech32CharsAre(c);
    }
    AllInExactly(a, Bech32Chars, IsLowerAlnum);
  }

  /** For a "bc1"/"tb1" address the `split('1')` in `validate_address_by_type` yields at least two
      pieces, the second being the data part. */
  lemma SegwitDataPart(a: string)
    requires |a| >= 3 && a[2] == '1' && a[0] != '1' && a[1] != '1'
    ensures |Split(a, '1')| >= 2
    ensures Split(a, '1')[1] == a[3..][..DataPartLength(a)]
  {
    assert a == a[..2] + ['1'] + a[3..];
    SplitAfterSeparator(a[..2], '1', a[3..]);
  }

  /** Past the blank and prefix checks, the result is that of
      `validate_address_by_type`. */
  lemma ValidateTyped(a: string, t: BtcAddressType)
    requires t != Invalid && IdentifyBtcAddressType(a) == t
    ensures ValidateBtcAddress(a) == ValidateAddressByType(a, t)
  {
    IdentifiedNotBlank(a);
  }

  /** An address that carries a type's prefix is not blank. */
  lemma IdentifiedNotBlank(a: string)
    requires IdentifyBtcAddressType(a) != Invalid
    ensures Trim(a) != []
  {
    IdentifiedHasPrefix(a);
    StartsAsMeans(a, IdentifyBtcAddressType(a));
    assert !IsWhitespace(a[0]);
  }

  /** For a legacy-style type, the per-type checks accept exactly the
      legacy-style description. */
  lemma Base58Checks(a: string, t: BtcAddressType)
    requires IsBase58Type(t) && StartsAs(a, t)
    ensures ValidateAddressByType(a, t).Ok? <==> AcceptedBase58(a)
  {
    StartsAsMeans(a, t);
    CharsFitMeans(t, a);
    if CharsFit(t, a) || AcceptedBase58(a) {
      assert forall i :: 0 <= i < |a| ==> IsBase58Char(a[i]);
      assert Utf8Len(a) == |a|;
    }
  }

  lemma Base58NotSegwit(a: string, t: BtcAddressType)
    requires IsBase58Type(t) && StartsAs(a, t)
    ensures !AcceptedSegwit(a, 'q', 42, 62) && !AcceptedSegwit(a, 'p', 62, 64)
  {
    StartsAsMeans(a, t);
  }

  lemma Base58Family(a: string, t: BtcAddressType)
    requires IsBase58Type(t) && IdentifyBtcAddressType(a) == t
    ensures ValidateBtcAddress(a).Ok? <==> Accepted(a)
  {
    ValidateTyped(a, t);
    IdentifiedHasPrefix(a);
    Base58Checks(a, t);
    Base58NotSegwit(a, t);
  }

  /** The version letter and the character window of a segwit-style type. */
  function SegwitShape(t: BtcAddressType): (char, nat, nat)
    requires IsSegwitType(t)
  {
    if t.Bech32? || t.TestnetBech32? then ('q', 42, 62) else ('p', 62, 64)
  }

  /** For an address of digits and lower-case letters that starts like
      "bc1"/"tb1", the second '1'-piece is the data part and its byte length
      is its character count. */
  lemma SegwitPartBytes(a: string)
    requires |a| >= 4 && a[2] == '1' && a[0] != '1' && a[1] != '1'
    requires forall i :: 0 <= i < |a| ==> IsLowerAlnum(a[i])
    ensures |Split(a, '1')| >= 2
    ensures Utf8Len(Split(a, '1')[1]) == DataPartLength(a)
  {
    SegwitDataPart(a);
    var part := Split(a, '1')[1];
    assert forall i :: 0 <= i < |part| ==> part[i] == a[3 + i];
  }

  /** For a segwit-style type, the per-type checks accept exactly the
      segwit-style description with that type's version and window. */
  lemma SegwitChecks(a: string, t: BtcAddressType, version: char, lo: nat, hi: nat)
    requires IsSegwitType(t) && StartsAs(a, t)
    requires (version, lo, hi) == SegwitShape(t)
    ensures ValidateAddressByType(a, t).Ok? <==> AcceptedSegwit(a, version, lo, hi)
  {
    StartsAsMeans(a, t);
    CharsFitMeans(t, a);
    SegwitSteps(a, t);
    if CharsFit(t, a) || AcceptedSegwit(a, version, lo, hi) {
      assert forall i :: 0 <= i < |a| ==> IsLowerAlnum(a[i]);
      assert Utf8Len(a) == |a|;
      SegwitPartBytes(a);
    }
  }

  /** The per-type checks of a segwit-style type, once the prefix holds a
      '1': the window, the alphabet and the data part, and nothing else. */
  lemma SegwitSteps(a: string, t: BtcAddressType)
    requires IsSegwitType(t) && |a| >= 3 && a[2] == '1'
    ensures ValidateAddressByType(a, t).Ok? <==>
              && LengthFits(t, Utf8Len(a)) && CharsFit(t, a)
              && |Split(a, '1')| >= 2 && Utf8Len(Split(a, '1')[1]) >= 6
  {
    assert '1' in a by { assert a[2] == '1'; }
  }

  lemma SegwitOnlyOneShape(a: string, t: BtcAddressType)
    requires IsSegwitType(t) && StartsAs(a, t)
    ensures !AcceptedBase58(a)
    ensures Accepted(a) <==> AcceptedSegwit(a, SegwitShape(t).0, SegwitShape(t).1, SegwitShape(t).2)
  {
    StartsAsMeans(a, t);
  }

  lemma SegwitFamily(a: string, t: BtcAddressType)
    requires IsSegwitType(t) && IdentifyBtcAddressType(a) == t
    ensures ValidateBtcAddress(a).Ok? <==> Accepted(a)
  {
    ValidateTyped(a, t);
    IdentifiedHasPrefix(a);
    var (version, lo, hi) := SegwitShape(t);
    SegwitChecks(a, t, version, lo, hi);
    SegwitOnlyOneShape(a, t);
  }

  /** Every accepted address carries some type's prefix. */
  lemma AcceptedPrefix(a: string) returns (t: BtcAddressType)
    requires Accepted(a)
    ensures StartsAs(a, t)
  {
    t := if a[0] == '1' then Legacy else if a[0] == '3' then ScriptHash
         else if a[0] == '2' then TestnetScript
         else if a[0] == 'm' || a[0] == 'n' then TestnetLegacy
         else if a[0] == 'b' then (if a[3] == 'q' then Bech32 else Taproot)
         else if a[3] == 'q' then TestnetBech32 else TestnetTaproot;
    assert a[..1] == [a[0]];
    if |a| >= 4 {
      assert a[..4] == [a[0], a[1], a[2], a[3]];
    }
  }

  lemma InvalidFamily(a: string)
    requires IdentifyBtcAddressType(a) == Invalid
    ensures ValidateBtcAddress(a).Err? && !Accepted(a)
  {
    if Accepted(a) {
      var t := AcceptedPrefix(a);
      PrefixIdentifies(a, t);
    }
  }

  /** `validate_btc_address` accepts exactly the addresses described by
      `Accepted`. */
  lemma ValidateAcceptsExactly(a: string)
    ensures ValidateBtcAddress(a).Ok? <==> Accepted(a)
  {
    var t := IdentifyBtcAddressType(a);
    if t == Invalid {
      InvalidFamily(a);
    } else if IsBase58Type(t) {
      Base58Family(a, t);
    } else {
      SegwitFamily(a, t);
    }
  }

  lemma AcceptedChars(a: string)
    requires Accepted(a)
    ensures forall i :: 0 <= i < |a| ==> !IsWhitespace(a[i]) && IsAscii(a[i])
    ensures Utf8Len(a) == |a|
  {
    assert forall i :: 0 <= i < |a| ==> IsAscii(a[i]);
  }

  /** An accepted address is plain ASCII without whitespace, so trimming
      leaves it as it is. */
  lemma AcceptedIsCompact(a: string)
    requires ValidateBtcAddress(a).Ok?
    ensures forall i :: 0 <= i < |a| ==> !IsWhitespace(a[i]) && IsAscii(a[i])
    ensures Trim(a) == a
  {
    ValidatedIsAccepted(a);
    AcceptedChars(a);
    TrimLeavesCompact(a);
  }

  /** The byte length of an accepted address is its character count. */
  lemma AcceptedByteLength(a: string)
    requires ValidateBtcAddress(a).Ok?
    ensures Utf8Len(a) == |a|
  {
    ValidatedIsAccepted(a);
    AcceptedChars(a);
  }

  lemma ValidatedIsAccepted(a: string)
    requires ValidateBtcAddress(a).Ok?
    ensures Accepted(a)
  {
    ValidateAcceptsExactly(a);
  }

  /** The blank pre-check of `link_btc_address` rejects with the same error
      the validator gives. */
  lemma BlankRejected(a: string)
    requires Trim(a) == []
    ensures ValidateBtcAddress(a) == Err(EmptyMsg)
  {
  }

  /** The "missing separator" error can never be returned. */
  lemma MissingSeparatorUnreachable(a: string)
    ensures ValidateBtcAddress(a) != Err(MissingSeparatorMsg)
  {
    assert |MissingSeparatorMsg| == 48 && |EmptyMsg| == 31 && |FormatMsg| == 59;
    var t := IdentifyBtcAddressType(a);
    if Trim(a) != [] && t != Invalid {
      assert ValidateBtcAddress(a) == ValidateAddressByType(a, t);
      SeparatorPresent(a, t);
    }
  }

  /** Every address classified as segwit has a '1' in its prefix. */
  lemma SeparatorPresent(a: string, t: BtcAddressType)
    requires t == IdentifyBtcAddressType(a) && t != Invalid
    ensures ValidateAddressByType(a, t) != Err(MissingSeparatorMsg)
  {
    if IsSegwitType(t) {
      IdentifiedHasPrefix(a);
      StartsAsMeans(a, t);
      assert a[2] in a;
    }
    OnlyMissingSeparatorFails(a, t);
  }

  /** Only a segwit address without any '1' fails the separator check. */
  lemma OnlyMissingSeparatorFails(a: string, t: BtcAddressType)
    requires IsSegwitType(t) ==> '1' in a
    ensures ValidateAddressByType(a, t) != Err(MissingSeparatorMsg)
  {
    assert |MissingSeparatorMsg| == 48 && |LengthMsg| == 51 && |CharsMsg| == 43;
  }
}
