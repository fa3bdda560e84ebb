/** The line scan of rk_helper::getCPUSerial: the serial number is read from
    the first line of /proc/cpuinfo that mentions "Serial" and has a ':'. The
    file is a parameter: None when it cannot be opened, otherwise its lines as
    getline returns them. */
module CpuSerial {
  import opened Basics

  /** The characters " \t" that the trim removes. */
  predicate IsBlank(c: char)
  {
    c == ' ' || c == '\t'
  }

  predicate OccursAt(s: string, p: string, i: nat)
  {
    i + |p| <= |s| && s[i..i + |p|] == p
  }

  /** s.find(p) != npos. */
  function Contains(s: string, p: string): bool
    decreases |s|
  {
    if OccursAt(s, p, 0) then true
    else if |s| <= |p| then false
    else Contains(s[1..], p)
  }

  /** Contains holds exactly when p occurs somewhere in s. */
  lemma {:induction false} ContainsOccurs(s: string, p: string)
    ensures Contains(s, p) <==> exists i: nat :: OccursAt(s, p, i)
    decreases |s|
  {
    if OccursAt(s, p, 0) {
    } else if |s| <= |p| {
      assert forall i: nat :: OccursAt(s, p, i) ==> i == 0;
    } else {
      ContainsOccurs(s[1..], p);
      assert forall i: nat :: OccursAt(s[1..], p, i) <==> OccursAt(s, p, i + 1);
      assert forall i: nat :: OccursAt(s, p, i) && i > 0 ==> OccursAt(s[1..], p, i - 1);
    }
  }

  /** s.find(c): the first index holding c, if any. */
  function FindChar(s: string, c: char): (r: Option<nat>)
    ensures r.None? <==> c !in s
    ensures r.Some? ==> r.value < |s| && s[r.value] == c && c !in s[..r.value]
    decreases |s|
  {
    if s == [] then None
    else if s[0] == c then Some(0)
    else match FindChar(s[1..], c)
      case None => None
      case Some(i) =>
        assert s[..i + 1] == [s[0]] + s[1..][..i];
        Some(i + 1)
  }

  /** serial.erase(0, serial.find_first_not_of(" \t")). */
  function TrimLeading(s: string): string
    decreases |s|
  {
    if s != [] && IsBlank(s[0]) then TrimLeading(s[1..]) else s
  }

  /** serial.erase(serial.find_last_not_of(" \t") + 1). */
  function TrimTrailing(s: string): string
    decreases |s|
  {
    if s != [] && IsBlank(s[|s| - 1]) then TrimTrailing(s[..|s| - 1]) else s
  }

  function Trim(s: string): string
  {
    TrimTrailing(TrimLeading(s))
  }

  predicate AllBlank(s: string)
  {
    forall i :: 0 <= i < |s| ==> IsBlank(s[i])
  }

  /** Trimming removes a blank prefix and a blank suffix and nothing else. */
  lemma TrimIsSlice(s: string)
    ensures exists i, j :: 0 <= i <= j <= |s| && Trim(s) == s[i..j] && AllBlank(s[..i]) && AllBlank(s[j..])
  {
    var i := LeadingShape(s);
    var l := TrimLeading(s);
    var j := TrailingShape(l);
    assert Trim(s) == s[i..i + j];
    assert s[i + j..] == l[j..];
  }

  predicate NoBlankEnds(t: string)
  {
    t == [] || (!IsBlank(t[0]) && !IsBlank(t[|t| - 1]))
  }

  /** The trimmed text neither starts nor ends with a blank. */
  lemma TrimEnds(s: string)
    ensures NoBlankEnds(Trim(s))
  {
    var i := LeadingShape(s);
    var j := TrailingShape(TrimLeading(s));
  }

  lemma {:induction false} LeadingShape(s: string) returns (i: nat)
    ensures i <= |s| && TrimLeading(s) == s[i..] && AllBlank(s[..i])
    ensures TrimLeading(s) == [] || !IsBlank(TrimLeading(s)[0])
    decreases |s|
  {
    if s != [] && IsBlank(s[0]) {
      var k := LeadingShape(s[1..]);
      i := k + 1;
      assert s[1..][k..] == s[i..];
      assert s[..i] == [s[0]] + s[1..][..k];
    } else {
      i := 0;
    }
  }

  lemma {:induction false} TrailingShape(s: string) returns (j: nat)
    ensures j <= |s| && TrimTrailing(s) == s[..j] && AllBlank(s[j..])
    ensures TrimTrailing(s) == [] || !IsBlank(TrimTrailing(s)[|TrimTrailing(s)| - 1])
    ensures s == [] || !IsBlank(s[0]) ==> TrimTrailing(s) == [] || !IsBlank(TrimTrailing(s)[0])
    decreases |s|
  {
    if s != [] && IsBlank(s[|s| - 1]) {
      j := TrailingShape(s[..|s| - 1]);
      assert s[..|s| - 1][..j] == s[..j];
      assert s[j..] == s[..|s| - 1][j..] + [s[|s| - 1]];
    } else {
      j := |s|;
    }
  }

  /** What one line yields: the trimmed text after its first ':', when the
      line contains "Serial" and a ':'. */
  function SerialOfLine(line: string): Option<string>
  {
    if !Contains(line, "Serial") then None
    else match FindChar(line, ':')
      case None => None
      case Some(pos) => Some(Trim(line[pos + 1..]))
  }

  /** The value of the first line that yields one, or "". */
  function SerialOfLines(lines: seq<string>): string
    decreases |lines|
  {
    if lines == [] then ""
    else match SerialOfLine(lines[0])
      case Some(serial) => serial
      case None => SerialOfLines(lines[1..])
  }

  /** getCPUSerial(): "" when /proc/cpuinfo cannot be opened (None) or no
      line yields a value; otherwise the value of the first line that does. */
  function GetCPUSerial(file: Option<seq<string>>): (r: string)
    ensures file.None? ==> r == ""
    ensures file.Some? && (forall k :: 0 <= k < |file.value| ==> SerialOfLine(file.value[k]).None?) ==> r == ""
    ensures file.Some? ==>
              forall k :: 0 <= k < |file.value| && SerialOfLine(file.value[k]).Some? &&
                          (forall j :: 0 <= j < k ==> SerialOfLine(file.value[j]).None?) ==>
                r == SerialOfLine(file.value[k]).value
    ensures r != "" ==> file.Some? && exists k :: 0 <= k < |file.value| && SerialOfLine(file.value[k]) == Some(r)
  {
    match file
    case None => ""
    case Some(lines) =>
      SerialIsFirstMatch(lines);
      SerialFromSomeLine(lines);
      SerialOfLines(lines)
  }

  /** A non-empty serial is the value of some line. */
  lemma {:induction false} SerialFromSomeLine(lines: seq<string>)
    ensures SerialOfLines(lines) != "" ==>
              exists k :: 0 <= k < |lines| && SerialOfLine(lines[k]) == Some(SerialOfLines(lines))
    decreases |lines|
  {
    if lines != [] && SerialOfLine(lines[0]).None? {
      SerialFromSomeLine(lines[1..]);
      if SerialOfLines(lines) != "" {
        var k :| 0 <= k < |lines[1..]| && SerialOfLine(lines[1..][k]) == Some(SerialOfLines(lines[1..]));
        assert lines[k + 1] == lines[1..][k];
      }
    }
  }

  /** The serial is "" when no line qualifies, and otherwise the trimmed text
      after the first ':' of the first qualifying line. */
  lemma {:induction false} SerialIsFirstMatch(lines: seq<string>)
    ensures (forall k :: 0 <= k < |lines| ==> SerialOfLine(lines[k]).None?) ==> SerialOfLines(lines) == ""
    ensures forall k :: 0 <= k < |lines| && SerialOfLine(lines[k]).Some? &&
                        (forall j :: 0 <= j < k ==> SerialOfLine(lines[j]).None?) ==>
              SerialOfLines(lines) == SerialOfLine(lines[k]).value
    decreases |lines|
  {
    if lines != [] {
      SerialIsFirstMatch(lines[1..]);
      forall k | 0 <= k < |lines| && SerialOfLine(lines[k]).Some? &&
                 (forall j :: 0 <= j < k ==> SerialOfLine(lines[j]).None?)
        ensures SerialOfLines(lines) == SerialOfLine(lines[k]).value
      {
        if k > 0 {
          assert lines[1..][k - 1] == lines[k];
          assert forall j :: 0 <= j < k - 1 ==> lines[1..][j] == lines[j + 1];
        }
      }
    }
  }

  /** A qualifying line's serial is a part of the line after its first ':'. */
  lemma SerialOfLineShape(line: string)
    requires SerialOfLine(line).Some?
    ensures exists i, j :: FindChar(line, ':').value < i <= j <= |line| &&
                           SerialOfLine(line).value == line[i..j]
  {
    var pos := FindChar(line, ':').value;
    assert SerialOfLine(line).value == Trim(line[pos + 1..]);
    TrimAfter(line, pos);
  }

  /** The text trimmed after position pos is a slice of line past pos. */
  lemma TrimAfter(line: string, pos: nat)
    requires pos < |line|
    ensures exists i, j :: pos < i <= j <= |line| && Trim(line[pos + 1..]) == line[i..j]
  {
    var rest := line[pos + 1..];
    var i, j := TrimBounds(rest);
    assert rest[i..j] == line[pos + 1 + i..pos + 1 + j];
  }

  /** Where the trimmed text sits in s. */
  lemma TrimBounds(s: string) returns (i: nat, j: nat)
    ensures i <= j <= |s| && Trim(s) == s[i..j]
  {
    i := LeadingShape(s);
    var k := TrailingShape(TrimLeading(s));
    j := i + k;
    assert Trim(s) == s[i..][..k];
  }

  /** Only a line mentioning "Serial" and holding a ':' yields a serial. */
  lemma SerialLineQualifies(line: string)
    ensures SerialOfLine(line).Some? <==> Contains(line, "Serial") && ':' in line
  {
    var c := Contains(line, "Serial");
    var f := FindChar(line, ':');
    assert SerialOfLine(line).Some? <==> c && f.Some?;
  }

  /** A serial has no blank at either end. */
  lemma SerialHasNoBlankEnds(line: string)
    requires SerialOfLine(line).Some?
    ensures NoBlankEnds(SerialOfLine(line).value)
  {
    var rest := line[FindChar(line, ':').value + 1..];
    assert SerialOfLine(line).value == Trim(rest);
    TrimEnds(rest);
  }
}
