/** The byte rewriter of the print monitor service, as the service runs it:
    one `while` loop over the input that appends to a growing result, inner
    loops that test for and copy a separator run, and a final loop that looks
    for an `ESC '!'` pair before prepending the fallback command. */
module PrintMonitorService {

  import opened DoubleSizeRewriter

  /** Rewrites every size command of a raw receipt to double size, leaving
      separator runs alone, and makes sure the result selects double size. */
  method ProcessFileWithDoubleSize(data: array<byte>) returns (output: array<byte>)
    ensures fresh(output)
    ensures output[..] == Rewrite(data[..])
  {
    ghost var s := data[..];
    ghost var scanned := ScanPass(s);
    var result: seq<byte> := [];
    var i := 0;

    while i < data.Length
      invariant i <= data.Length
      invariant result + ScanFrom(s, i) == scanned
      decreases data.Length - i
    {
      ScanFromAdvance(s, i, result);
      var isSeparator := false;
      if i <= data.Length - SeparatorLength {
        isSeparator := IsSeparatorRun(data, i);
      }

      if isSeparator {
        ghost var before := result;
        for j := 0 to SeparatorLength
          invariant result == before + s[i..i + j]
        {
          result := result + [data[i + j]];
        }
        i := i + SeparatorLength;
      } else if i <= data.Length - 3 && data[i] == Esc && data[i + 1] == Bang {
        result := result + [Esc, Bang, DoubleSizeParam];
        i := i + 3;
      } else {
        result := result + [data[i]];
        i := i + 1;
      }
    }

    assert result == scanned;

    var hasEscCommand := HasEscCommand(result);
    if !hasEscCommand {
      result := DoubleSize + result;
    }
    assert result == Rewrite(s);

    output := new byte[|result|](k requires 0 <= k < |result| => result[k]);
    assert output[..] == result && data[..] == s;
  }

  /** The separator test: whether the 42 bytes from index i are all dashes. */
  method IsSeparatorRun(data: array<byte>, i: nat) returns (isSeparator: bool)
    requires i + SeparatorLength <= data.Length
    ensures isSeparator <==> SeparatorAt(data[..], i)
  {
    isSeparator := true;
    var j := 0;
    while j < SeparatorLength
      invariant j <= SeparatorLength
      invariant isSeparator
      invariant forall k :: i <= k < i + j ==> data[k] == Dash
    {
      if data[i + j] != Dash {
        isSeparator := false;
        assert !SeparatorAt(data[..], i) by {
          if SeparatorAt(data[..], i) {
            SeparatorByte(data[..], i, i + j);
          }
        }
        break;
      }
      j := j + 1;
    }
    if isSeparator {
      SeparatorOfDashes(data[..], i);
    }
  }

  /** The fallback's search: whether an `ESC '!'` pair starts before the last two bytes. */
  method HasEscCommand(result: seq<byte>) returns (hasEscCommand: bool)
    ensures hasEscCommand <==> HasEscPair(result)
  {
    hasEscCommand := false;
    var j := 0;
    while j < |result| - 2
      invariant j == 0 || j <= |result| - 2
      invariant !hasEscCommand
      invariant forall k :: 0 <= k < j ==> !(result[k] == Esc && result[k + 1] == Bang)
    {
      if result[j] == Esc && result[j + 1] == Bang {
        hasEscCommand := true;
        break;
      }
      j := j + 1;
    }
  }
}
