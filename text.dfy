/** The byte-string helpers that feed the engine: `trim`, `to_upper_copy`,
    `label_is_malicious` and `build_row_text`. */
module Text {
  import opened Common

  /** The bytes of an ASCII string literal. */
  function Ascii(s: string): (r: seq<byte>)
    requires forall i :: 0 <= i < |s| ==> s[i] as int < 256
    ensures |r| == |s| && forall i :: 0 <= i < |s| ==> r[i] as int == s[i] as int
  {
    seq(|s|, i requires 0 <= i < |s| => s[i] as int as byte)
  }

  /** The bytes read back as characters, for comparison with a string
      literal. */
  function Chars(b: seq<byte>): (r: string)
    ensures |r| == |b| && forall i :: 0 <= i < |b| ==> r[i] as int == b[i] as int
  {
    seq(|b|, i requires 0 <= i < |b| => b[i] as int as char)
  }

  /** Reading the bytes of a literal back gives the literal. */
  lemma CharsOfAscii(s: string)
    requires forall i :: 0 <= i < |s| ==> s[i] as int < 256
    ensures Chars(Ascii(s)) == s
  {
  }

  predicate IsLower(b: byte) {
    'a' as byte <= b <= 'z' as byte
  }

  /** `std::toupper` in the C locale. */
  function UpperByte(b: byte): byte {
    if IsLower(b) then b - 32 else b
  }

  /** `to_upper_copy`: every lower-case letter becomes its capital, 32
      below it, and every other byte is kept. */
  function ToUpper(s: seq<byte>): (r: seq<byte>)
    ensures |r| == |s|
    ensures forall i :: 0 <= i < |s| && IsLower(s[i]) ==> r[i] as int == s[i] as int - 32 && !IsLower(r[i])
    ensures forall i :: 0 <= i < |s| && !IsLower(s[i]) ==> r[i] == s[i]
  {
    seq(|s|, i requires 0 <= i < |s| => UpperByte(s[i]))
  }

  /** Upper-casing leaves no lower-case letter, changes nothing else than
      lower-case letters, and a second pass changes nothing. */
  lemma ToUpperIdempotent(s: seq<byte>)
    ensures forall i :: 0 <= i < |s| ==> !IsLower(ToUpper(s)[i])
    ensures forall i :: 0 <= i < |s| && !IsLower(s[i]) ==> ToUpper(s)[i] == s[i]
    ensures ToUpper(ToUpper(s)) == ToUpper(s)
  {
  }

  /** The separators `trim` strips: space, tab, carriage return, newline. */
  predicate IsSpace(b: byte) {
    b == ' ' as byte || b == '\t' as byte || b == '\r' as byte || b == '\n' as byte
  }

  /** `find_first_not_of(" \t\r\n")` from `i`, with `|s|` for `npos`. */
  function FirstNonSpace(s: seq<byte>, i: nat): (a: nat)
    requires i <= |s|
    ensures i <= a <= |s|
    ensures forall k :: i <= k < a ==> IsSpace(s[k])
    ensures a < |s| ==> !IsSpace(s[a])
    decreases |s| - i
  {
    if i == |s| || !IsSpace(s[i]) then i else FirstNonSpace(s, i + 1)
  }

  /** `find_last_not_of(" \t\r\n")` below `j`, with -1 for `npos`. */
  function LastNonSpace(s: seq<byte>, j: nat): (b: int)
    requires j <= |s|
    ensures -1 <= b < j
    ensures forall k :: b < k < j ==> IsSpace(s[k])
    ensures b >= 0 ==> !IsSpace(s[b])
  {
    if j == 0 then -1 else if !IsSpace(s[j - 1]) then j - 1 else LastNonSpace(s, j - 1)
  }

  /** `trim`: the stretch from the first to the last byte that is not a
      separator, or nothing when every byte is one. */
  function Trim(s: seq<byte>): (r: seq<byte>)
    ensures r == [] <==> forall k :: 0 <= k < |s| ==> IsSpace(s[k])
    ensures r != [] ==> !IsSpace(r[0]) && !IsSpace(r[|r| - 1])
    ensures exists a, b :: 0 <= a <= b <= |s| && r == s[a..b]
                           && (forall k :: 0 <= k < a ==> IsSpace(s[k]))
                           && (forall k :: b <= k < |s| ==> IsSpace(s[k]))
  {
    var a := FirstNonSpace(s, 0);
    if a == |s| then
      assert s[0..0] == [];
      []
    else
      var b := LastNonSpace(s, |s|);
      s[a..b + 1]
  }

  /** Trimming twice is trimming once. */
  lemma TrimIdempotent(s: seq<byte>)
    ensures Trim(Trim(s)) == Trim(s)
  {
    var r := Trim(s);
    if r != [] {
      assert FirstNonSpace(r, 0) == 0;
      assert LastNonSpace(r, |r|) == |r| - 1;
      assert r[0..|r|] == r;
    }
  }

  /** `a` and `b` spell the same word once letter case is ignored. */
  ghost predicate EqualIgnoringCase(a: seq<byte>, b: seq<byte>) {
    |a| == |b| && forall i :: 0 <= i < |a| ==> UpperByte(a[i]) == UpperByte(b[i])
  }

  /** `label_is_malicious`: a non-empty label that is not BENIGN in any
      letter case. */
  function LabelIsMalicious(labelRaw: seq<byte>): (r: bool)
    ensures r <==> labelRaw != [] && !EqualIgnoringCase(labelRaw, Ascii("BENIGN"))
  {
    var benign := Ascii("BENIGN");
    assert forall i :: 0 <= i < |benign| ==> UpperByte(benign[i]) == benign[i];
    assert ToUpper(labelRaw) == benign <==> EqualIgnoringCase(labelRaw, benign);
    labelRaw != [] && ToUpper(labelRaw) != benign
  }

  /** The label's letter case does not matter. */
  lemma LabelIgnoresCase(labelRaw: seq<byte>)
    ensures LabelIsMalicious(ToUpper(labelRaw)) == LabelIsMalicious(labelRaw)
  {
    ToUpperIdempotent(labelRaw);
  }

  /** The upper-cased non-empty columns, in order. */
  function UpperColumns(cols: seq<seq<byte>>): (r: seq<seq<byte>>)
    ensures forall k :: 0 <= k < |r| ==> r[k] != []
  {
    if cols == [] then []
    else
      var last := cols[|cols| - 1];
      UpperColumns(cols[..|cols| - 1]) + (if last == [] then [] else [ToUpper(last)])
  }

  /** The parts joined by single spaces. */
  function JoinSpaced(parts: seq<seq<byte>>): seq<byte> {
    if parts == [] then []
    else if |parts| == 1 then parts[0]
    else JoinSpaced(parts[..|parts| - 1]) + [' ' as byte] + parts[|parts| - 1]
  }

  /** The row text the source scans. */
  function RowText(cols: seq<seq<byte>>): seq<byte> {
    JoinSpaced(UpperColumns(cols))
  }

  /** Non-empty parts join into a non-empty text. */
  lemma JoinSpacedEmpty(parts: seq<seq<byte>>)
    requires forall k :: 0 <= k < |parts| ==> parts[k] != []
    ensures JoinSpaced(parts) == [] <==> parts == []
  {
  }

  lemma JoinSnoc(parts: seq<seq<byte>>, part: seq<byte>)
    ensures JoinSpaced(parts + [part]) == if parts == [] then part else JoinSpaced(parts) + [' ' as byte] + part
  {
    assert (parts + [part])[..|parts|] == parts;
  }

  /** `build_row_text`: skip the empty columns, upper-case the others, and
      separate them with one space. */
  method BuildRowText(cols: seq<seq<byte>>) returns (text: seq<byte>)
    ensures text == RowText(cols)
  {
    text := [];
    for i := 0 to |cols|
      invariant text == RowText(cols[..i])
    {
      var col := cols[i];
      var parts := UpperColumns(cols[..i]);
      assert cols[..i + 1][..i] == cols[..i];
      assert UpperColumns(cols[..i + 1]) == parts + (if col == [] then [] else [ToUpper(col)]);
      JoinSpacedEmpty(parts);
      JoinSnoc(parts, ToUpper(col));
      if col != [] {
        if text != [] {
          text := text + [' ' as byte];
        }
        text := text + ToUpper(col);
      } else {
        assert parts + [] == parts;
      }
    }
    assert cols[..|cols|] == cols;
  }

  /** Every part occurs in the joined text. */
  lemma {:induction false} PartInJoin(parts: seq<seq<byte>>, j: int)
    requires 0 <= j < |parts|
    ensures OccursIn(parts[j], JoinSpaced(parts))
  {
    var n := |parts|;
    if n > 1 {
      var init := parts[..n - 1];
      var prefix := JoinSpaced(init) + [' ' as byte];
      assert JoinSpaced(parts) == prefix + parts[n - 1];
      if j < n - 1 {
        PartInJoin(init, j);
        var s :| OccursAt(init[j], JoinSpaced(init), s);
        assert JoinSpaced(parts)[s..s + |parts[j]|] == JoinSpaced(init)[s..s + |parts[j]|];
        assert OccursAt(parts[j], JoinSpaced(parts), s);
      } else {
        assert OccursAt(parts[j], JoinSpaced(parts), |prefix|);
      }
    } else {
      assert OccursAt(parts[j], JoinSpaced(parts), 0);
    }
  }

  /** A non-empty column appears, upper-cased, in the row text. */
  lemma {:induction false} ColumnInRowText(cols: seq<seq<byte>>, k: int)
    requires 0 <= k < |cols| && cols[k] != []
    ensures OccursIn(ToUpper(cols[k]), RowText(cols))
  {
    var j := UpperIndex(cols, k);
    PartInJoin(UpperColumns(cols), j);
  }

  /** Where column `k` lands among the upper-cased columns. */
  lemma {:induction false} UpperIndex(cols: seq<seq<byte>>, k: int) returns (j: int)
    requires 0 <= k < |cols| && cols[k] != []
    ensures 0 <= j < |UpperColumns(cols)| && UpperColumns(cols)[j] == ToUpper(cols[k])
  {
    var n := |cols|;
    var init := cols[..n - 1];
    if k == n - 1 {
      j := |UpperColumns(init)|;
    } else {
      j := UpperIndex(init, k);
    }
  }
}
