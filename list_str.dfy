/**
 * The bounded list renderers htt_make_u8_list_str and htt_make_u16_list_str:
 * they print the values of a trailing array as a comma-separated decimal list
 * into a caller buffer of fixed capacity, stopping at a 0 value, after
 * `max_elems` values, or when the next value no longer fits.
 */
module ListStr {
  import opened CInt
  import opened CText
  import opened MsgRead

  /** What `qdf_snprint(.., "%d,", v)` produces for one element. */
  function ElemText(v: nat): string {
    DecimalText(v) + ","
  }

  /** Every element followed by its comma: what the renderer's loop leaves in the buffer. */
  function WithCommas(xs: seq<nat>): string {
    if xs == [] then "" else WithCommas(xs[..|xs| - 1]) + ElemText(xs[|xs| - 1])
  }

  /** The comma-separated list, with no trailing comma. */
  function Joined(xs: seq<nat>): string {
    if xs == [] then ""
    else if |xs| == 1 then DecimalText(xs[0])
    else Joined(xs[..|xs| - 1]) + "," + DecimalText(xs[|xs| - 1])
  }

  /**
   * The values the renderer prints from `vals` with `space` characters of
   * buffer left: it stops at a 0, at the end of `vals`, or at the first value
   * whose text would leave no room (`space - bytes <= 0`).
   */
  function Fitting(vals: seq<nat>, space: int): seq<nat>
    decreases |vals|
  {
    if vals == [] || vals[0] == 0 then []
    else
      var bytes := |ElemText(vals[0])|;
      if space - bytes > 0 then [vals[0]] + Fitting(vals[1..], space - bytes) else []
  }

  /** The string the renderer leaves in a buffer of capacity `space`. */
  function ListText(vals: seq<nat>, space: int): (s: string)
    ensures '\0' !in s
  {
    JoinedHasNoNul(Fitting(vals, space));
    Joined(Fitting(vals, space))
  }

  /** The first `max_elems` bytes of the array at `off`, as htt_msg_read8 reads them. */
  function U8Values(b: Blob, off: int, maxElems: int): seq<nat> {
    seq<nat>(if maxElems > 0 then maxElems else 0, k => Read8(b, off + k))
  }

  /** The first `max_elems` halfwords of the array at `off`, as htt_msg_read16 reads them. */
  function U16Values(b: Blob, off: int, maxElems: int): seq<nat> {
    seq<nat>(if maxElems > 0 then maxElems else 0, k => Read16(b, off + 2 * k))
  }

  // ---------------------------------------------------------------------
  // Properties of the specification

  lemma {:induction false} WithCommasCons(x: nat, xs: seq<nat>)
    ensures WithCommas([x] + xs) == ElemText(x) + WithCommas(xs)
    decreases |xs|
  {
    if xs != [] {
      var ys := [x] + xs;
      assert ys[..|ys| - 1] == [x] + xs[..|xs| - 1];
      WithCommasCons(x, xs[..|xs| - 1]);
    } else {
      assert ([x] + xs)[..0] == [];
    }
  }

  /** Erasing the final comma of the loop's output gives exactly the joined list. */
  lemma {:induction false} WithCommasIsJoinedPlusComma(xs: seq<nat>)
    requires xs != []
    ensures WithCommas(xs) == Joined(xs) + ","
    decreases |xs|
  {
    if |xs| == 1 {
      assert xs[..0] == [];
    } else {
      WithCommasIsJoinedPlusComma(xs[..|xs| - 1]);
    }
  }

  /** Fitting is a prefix of `vals` that holds no 0. */
  lemma {:induction false} FittingIsZeroFreePrefix(vals: seq<nat>, space: int)
    ensures |Fitting(vals, space)| <= |vals|
    ensures Fitting(vals, space) == vals[..|Fitting(vals, space)|]
    ensures forall i :: 0 <= i < |Fitting(vals, space)| ==> Fitting(vals, space)[i] != 0
    decreases |vals|
  {
    if vals != [] && vals[0] != 0 {
      var bytes := |ElemText(vals[0])|;
      if space - bytes > 0 {
        var f := Fitting(vals, space);
        var g := Fitting(vals[1..], space - bytes);
        FittingIsZeroFreePrefix(vals[1..], space - bytes);
        assert f == [vals[0]] + g;
        forall i | 0 <= i < |f|
          ensures f[i] != 0
        {
          if i > 0 {
            assert f[i] == g[i - 1];
          }
        }
        assert vals == [vals[0]] + vals[1..];
      }
    }
  }

  /**
   * The printed elements' texts fit with room to spare, and the renderer
   * stopped for one of the reasons the source checks: the end of the
   * values, a 0, or a next element that would not fit. With the lemma
   * above, Fitting is the longest such prefix.
   */
  lemma {:induction false} FittingIsLongestThatFits(vals: seq<nat>, space: int)
    ensures var f := Fitting(vals, space);
      f != [] ==> |WithCommas(f)| < space
    ensures var f := Fitting(vals, space);
      |f| < |vals| ==> vals[|f|] == 0 || |WithCommas(f)| + |ElemText(vals[|f|])| >= space
    decreases |vals|
  {
    if vals != [] && vals[0] != 0 {
      var bytes := |ElemText(vals[0])|;
      if space - bytes > 0 {
        var f := Fitting(vals, space);
        var g := Fitting(vals[1..], space - bytes);
        FittingIsLongestThatFits(vals[1..], space - bytes);
        assert f == [vals[0]] + g;
        WithCommasCons(vals[0], g);
        if g == [] {
          assert WithCommas(g) == "";
        }
        if |f| < |vals| {
          assert vals[|f|] == vals[1..][|g|];
        }
      }
    }
  }

  /** The rendered text leaves room for its terminator: it is shorter than the buffer. */
  lemma ListTextFits(vals: seq<nat>, space: int)
    requires space > 0
    ensures |ListText(vals, space)| < space
  {
    var f := Fitting(vals, space);
    FittingIsLongestThatFits(vals, space);
    if f != [] {
      WithCommasIsJoinedPlusComma(f);
    }
  }

  /** A leading 0 (the "no more data" terminator) renders as the empty string. */
  lemma LeadingZeroRendersEmpty(vals: seq<nat>, space: int)
    requires vals != [] && vals[0] == 0
    ensures ListText(vals, space) == ""
  {
  }

  /** The rendered list is empty exactly when no value was printed. */
  lemma EmptyExactlyWhenNothingPrinted(vals: seq<nat>, space: int)
    ensures ListText(vals, space) == "" <==> Fitting(vals, space) == []
  {
  }

  /** When every value fits, the whole list is printed: no last element is lost. */
  lemma {:induction false} AllFitRendersAll(vals: seq<nat>, space: int)
    requires forall i :: 0 <= i < |vals| ==> vals[i] != 0
    requires |WithCommas(vals)| < space
    ensures Fitting(vals, space) == vals
    ensures ListText(vals, space) == Joined(vals)
    decreases |vals|
  {
    if vals != [] {
      WithCommasCons(vals[0], vals[1..]);
      assert [vals[0]] + vals[1..] == vals;
      AllFitRendersAll(vals[1..], space - |ElemText(vals[0])|);
    }
  }

  /**
   * The `space > 0` test keeps a room of one character back for the comma
   * that is later erased, so a list that would exactly fill the buffer once
   * its final comma is gone loses its last element: "1,2" and its NUL fill
   * 4 characters, yet a 4-character buffer receives only "1".
   */
  lemma ExactFitDropsLastElement()
    ensures |Joined([1, 2])| + 1 == 4
    ensures ListText([1, 2], 4) == "1"
  {
    assert DecimalText(1) == "1" && DecimalText(2) == "2";
    assert [1, 2][..1] == [1];
    assert Fitting([1, 2], 4) == [1] + Fitting([2], 2);
  }

  /** The rendered list is digits and commas only, so it reads back whole as a C string. */
  lemma {:induction false} JoinedHasNoNul(xs: seq<nat>)
    ensures '\0' !in Joined(xs)
    decreases |xs|
  {
    if xs != [] {
      var last := DecimalText(xs[|xs| - 1]);
      assert '\0' !in last;
      if |xs| > 1 {
        JoinedHasNoNul(xs[..|xs| - 1]);
      }
    }
  }

  /** A buffer holding the rendered list and its terminator reads back, as a C string, as the list. */
  lemma ListReadsBack(buf: seq<char>, vals: seq<nat>, space: int)
    requires var r := ListText(vals, space);
      |r| < |buf| && buf[..|r|] == r && buf[|r|] == '\0'
    ensures CString(buf) == ListText(vals, space)
  {
    JoinedHasNoNul(Fitting(vals, space));
    CStringOfTerminated(buf, ListText(vals, space));
  }

  // ---------------------------------------------------------------------
  // The renderers

  /**
   * qdf_snprint(buffer + pos, space, "%d,", v): writes as much of the text as
   * leaves room for a NUL, then the NUL, and returns the full text's length.
   */
  method SnprintElem(buffer: array<char>, pos: nat, space: int, v: nat) returns (bytes: int)
    requires 0 < space && pos + space <= buffer.Length
    modifies buffer
    ensures bytes == |ElemText(v)|
    ensures buffer[..pos] == old(buffer[..pos])
    ensures bytes < space ==> buffer[pos..pos + bytes] == ElemText(v) && buffer[pos + bytes] == '\0'
    ensures bytes >= space ==> buffer[pos..pos + space - 1] == ElemText(v)[..space - 1] && buffer[pos + space - 1] == '\0'
    ensures var n := if bytes < space then bytes else space - 1;
      buffer[pos + n + 1..] == old(buffer[pos + n + 1..])
  {
    var text := ElemText(v);
    var n := if |text| < space then |text| else space - 1;
    forall i | 0 <= i < n {
      buffer[pos + i] := text[i];
    }
    assert buffer[pos..pos + n] == text[..n];
    buffer[pos + n] := '\0';
    assert buffer[pos..pos + n] == text[..n];
    bytes := |text|;
  }

  /** One accepted element: the loop state after it is again of the invariant's shape. */
  lemma AcceptStep(vals: seq<nat>, space: int, k: nat, room: int, before: seq<char>, after: seq<char>, bufP: nat)
    requires k < |vals| && vals[k] != 0 && room - |ElemText(vals[k])| > 0
    requires Fitting(vals, space) == vals[..k] + Fitting(vals[k..], room)
    requires bufP <= |before| && before[..bufP] == WithCommas(vals[..k])
    requires bufP + |ElemText(vals[k])| <= |after| && after[..bufP] == before[..bufP]
    requires after[bufP..bufP + |ElemText(vals[k])|] == ElemText(vals[k])
    ensures after[..bufP + |ElemText(vals[k])|] == WithCommas(vals[..k + 1])
    ensures Fitting(vals, space) == vals[..k + 1] + Fitting(vals[k + 1..], room - |ElemText(vals[k])|)
  {
    var n := |ElemText(vals[k])|;
    assert vals[k..][0] == vals[k] && vals[k..][1..] == vals[k + 1..];
    assert vals[..k + 1][..k] == vals[..k];
    assert after[..bufP + n] == after[..bufP] + after[bufP..bufP + n];
    assert vals[..k + 1] == vals[..k] + [vals[k]];
  }

  /** A rejected element (a 0, or one that does not fit) ends the printed list. */
  lemma RejectStep(vals: seq<nat>, space: int, k: nat, room: int)
    requires k < |vals| && (vals[k] == 0 || room - |ElemText(vals[k])| <= 0)
    requires Fitting(vals, space) == vals[..k] + Fitting(vals[k..], room)
    ensures Fitting(vals, space) == vals[..k]
  {
    assert vals[k..][0] == vals[k];
  }

  /** The loop ran out of elements: everything read was printed. */
  lemma ExhaustedStep(vals: seq<nat>, space: int, k: nat, room: int)
    requires k == |vals|
    requires Fitting(vals, space) == vals[..k] + Fitting(vals[k..], room)
    ensures Fitting(vals, space) == vals[..k]
  {
    assert vals[k..] == [];
  }

  /**
   * The renderers' loop body once a non-zero value is read: print it at
   * `bufP` and report its length; the caller keeps it when room is left.
   */
  method AppendElem(buffer: array<char>, bufP: nat, room: int, val: nat,
                    ghost vals: seq<nat>, ghost space: int, ghost k: nat) returns (bytes: int)
    requires 0 < room && bufP + room == space <= buffer.Length
    requires k < |vals| && vals[k] == val && val != 0
    requires buffer[..bufP] == WithCommas(vals[..k])
    requires Fitting(vals, space) == vals[..k] + Fitting(vals[k..], room)
    modifies buffer
    ensures bytes == |ElemText(val)|
    ensures room - bytes > 0 ==>
      && buffer[..bufP + bytes] == WithCommas(vals[..k + 1])
      && Fitting(vals, space) == vals[..k + 1] + Fitting(vals[k + 1..], room - bytes)
    ensures room - bytes <= 0 ==>
      buffer[..bufP] == WithCommas(vals[..k]) && Fitting(vals, space) == vals[..k]
    ensures buffer[space..] == old(buffer[space..])
  {
    ghost var before := buffer[..];
    bytes := SnprintElem(buffer, bufP, room, val);
    if room - bytes > 0 {
      AcceptStep(vals, space, k, room, before, buffer[..], bufP);
    } else {
      RejectStep(vals, space, k, room);
      assert buffer[..bufP] == before[..bufP];
    }
  }

  /** htt_make_u8_list_str */
  method MakeU8ListStr(b: Blob, alignedData: int, buffer: array<char>, space: int, maxElems: int)
    requires 0 < space <= buffer.Length
    modifies buffer
    ensures var r := ListText(U8Values(b, alignedData, maxElems), space);
      |r| < space && buffer[..|r|] == r && buffer[|r|] == '\0'
    ensures buffer[space..] == old(buffer[space..])
  {
    ghost var vals := U8Values(b, alignedData, maxElems);
    var bufP, k := FillU8(b, alignedData, buffer, space, maxElems);
    Terminate(buffer, bufP, space, vals, k);
  }

  /**
   * The loop of htt_make_u8_list_str: appends values while they are nonzero
   * and fit, and stops with the values it printed being exactly `Fitting`.
   */
  method FillU8(b: Blob, alignedData: int, buffer: array<char>, space: int, maxElems: int)
    returns (bufP: nat, ghost k: nat)
    requires 0 < space <= buffer.Length
    modifies buffer
    ensures var vals := U8Values(b, alignedData, maxElems);
      && bufP < space && k <= |vals|
      && buffer[..bufP] == WithCommas(vals[..k])
      && Fitting(vals, space) == vals[..k]
    ensures buffer[space..] == old(buffer[space..])
  {
    ghost var vals := U8Values(b, alignedData, maxElems);
    var p8 := alignedData;
    bufP := 0;
    var room := space;
    var left := maxElems;
    k := 0;
    while left > 0
      invariant 0 <= k <= |vals| && p8 == alignedData + k
      invariant left > 0 ==> k == maxElems - left
      invariant left <= 0 ==> k == |vals|
      invariant 0 < room && bufP + room == space
      invariant buffer[..bufP] == WithCommas(vals[..k])
      invariant Fitting(vals, space) == vals[..k] + Fitting(vals[k..], room)
      invariant buffer[space..] == old(buffer[space..])
    {
      left := left - 1;
      var val := Read8(b, p8);
      assert val == vals[k];
      if val == 0 {
        RejectStep(vals, space, k, room);
        break;
      }
      var bytes := AppendElem(buffer, bufP, room, val, vals, space, k);
      room := room - bytes;
      if room <= 0 {
        break;
      }
      bufP := bufP + bytes;
      p8 := p8 + 1;
      k := k + 1;
    }
    if k == |vals| {
      ExhaustedStep(vals, space, k, room);
    }
  }

  /** htt_make_u16_list_str */
  method MakeU16ListStr(b: Blob, alignedData: int, buffer: array<char>, space: int, maxElems: int)
    requires 0 < space <= buffer.Length
    modifies buffer
    ensures var r := ListText(U16Values(b, alignedData, maxElems), space);
      |r| < space && buffer[..|r|] == r && buffer[|r|] == '\0'
    ensures buffer[space..] == old(buffer[space..])
  {
    ghost var vals := U16Values(b, alignedData, maxElems);
    var bufP, k := FillU16(b, alignedData, buffer, space, maxElems);
    Terminate(buffer, bufP, space, vals, k);
  }

  /**
   * The loop of htt_make_u16_list_str: appends values while they are nonzero
   * and fit, and stops with the values it printed being exactly `Fitting`.
   */
  method FillU16(b: Blob, alignedData: int, buffer: array<char>, space: int, maxElems: int)
    returns (bufP: nat, ghost k: nat)
    requires 0 < space <= buffer.Length
    modifies buffer
    ensures var vals := U16Values(b, alignedData, maxElems);
      && bufP < space && k <= |vals|
      && buffer[..bufP] == WithCommas(vals[..k])
      && Fitting(vals, space) == vals[..k]
    ensures buffer[space..] == old(buffer[space..])
  {
    ghost var vals := U16Values(b, alignedData, maxElems);
    var p16 := alignedData;
    bufP := 0;
    var room := space;
    var left := maxElems;
    k := 0;
    while left > 0
      invariant 0 <= k <= |vals| && p16 == alignedData + 2 * k
      invariant left > 0 ==> k == maxElems - left
      invariant left <= 0 ==> k == |vals|
      invariant 0 < room && bufP + room == space
      invariant buffer[..bufP] == WithCommas(vals[..k])
      invariant Fitting(vals, space) == vals[..k] + Fitting(vals[k..], room)
      invariant buffer[space..] == old(buffer[space..])
    {
      left := left - 1;
      var val := Read16(b, p16);
      assert val == vals[k];
      if val == 0 {
        RejectStep(vals, space, k, room);
        break;
      }
      var bytes := AppendElem(buffer, bufP, room, val, vals, space, k);
      room := room - bytes;
      if room <= 0 {
        break;
      }
      bufP := bufP + bytes;
      p16 := p16 + 2;
      k := k + 1;
    }
    if k == |vals| {
      ExhaustedStep(vals, space, k, room);
    }
  }

  /**
   * The renderers' common epilogue: NUL at the start when nothing was
   * written, otherwise over the final comma.
   */
  method Terminate(buffer: array<char>, bufP: nat, space: int, ghost vals: seq<nat>, ghost k: nat)
    requires 0 < space <= buffer.Length && bufP < space && k <= |vals|
    requires buffer[..bufP] == WithCommas(vals[..k])
    requires Fitting(vals, space) == vals[..k]
    modifies buffer
    ensures var r := ListText(vals, space);
      |r| < space && buffer[..|r|] == r && buffer[|r|] == '\0'
    ensures buffer[space..] == old(buffer[space..])
  {
    ListTextFits(vals, space);
    if bufP == 0 {
      buffer[0] := '\0';
    } else {
      assert vals[..k] != [];
      WithCommasIsJoinedPlusComma(vals[..k]);
      buffer[bufP - 1] := '\0';
      assert buffer[..bufP - 1] == old(buffer[..bufP])[..bufP - 1];
    }
  }
}
