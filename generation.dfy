/**
 * The fingerprint read in get_subvolume_hash: the value of the first line of
 * `btrfs subvolume show` output that holds `Generation:`.
 */
module Generation {
  import opened Wrappers
  import opened Strings

  const GenerationKey: string := "Generation:"

  lemma KeyLineHasColon(line: string)
    requires Contains(line, GenerationKey)
    ensures ':' in line
  {
    var i :| OccursAt(line, i, GenerationKey);
    assert |GenerationKey| == 11 && GenerationKey[10] == ':';
    assert OccursAt(line, i, GenerationKey);
    assert 0 <= i && i + 11 <= |line| && line[i..i + 11] == GenerationKey;
    assert line[i + 10] == line[i..i + 11][10];
  }

  /** `line.split(':')[1].strip()` for a line holding the key. */
  function LineValue(line: string): string
    requires Contains(line, GenerationKey)
  {
    KeyLineHasColon(line);
    Strip(Split(line, ':')[1])
  }

  /** The value of the first line that holds the key, or None. */
  function FirstGeneration(lines: seq<string>): Option<string>
  {
    if lines == [] then None
    else if Contains(lines[0], GenerationKey) then Some(LineValue(lines[0]))
    else FirstGeneration(lines[1..])
  }

  /** What get_subvolume_hash returns for the command's standard output. */
  function GenerationOf(stdout: string): Option<string>
  {
    FirstGeneration(Split(stdout, '\n'))
  }

  /** The index of the first line holding the key, or the number of lines when none does. */
  function KeyIndex(lines: seq<string>): (k: int)
    ensures 0 <= k <= |lines|
    ensures k < |lines| ==> Contains(lines[k], GenerationKey)
    ensures forall j :: 0 <= j < k ==> !Contains(lines[j], GenerationKey)
  {
    if lines == [] || Contains(lines[0], GenerationKey) then 0
    else
      var k := KeyIndex(lines[1..]);
      assert forall j :: 0 < j <= k ==> lines[j] == lines[1..][j - 1];
      k + 1
  }

  /** No line holds the key. */
  predicate NoKeyLine(lines: seq<string>)
  {
    forall i :: 0 <= i < |lines| ==> !Contains(lines[i], GenerationKey)
  }

  /** No value exactly when no line holds the key. */
  lemma {:induction false} FirstGenerationNone(lines: seq<string>)
    ensures FirstGeneration(lines).None? <==> NoKeyLine(lines)
  {
    if lines != [] && !Contains(lines[0], GenerationKey) {
      FirstGenerationNone(lines[1..]);
      assert forall i :: 0 < i < |lines| ==> lines[i] == lines[1..][i - 1];
    }
  }

  /** A value, when there is one, is the value of the first line holding the key. */
  lemma {:induction false} FirstGenerationAt(lines: seq<string>)
    ensures var k := KeyIndex(lines);
      FirstGeneration(lines) == if k == |lines| then None else Some(LineValue(lines[k]))
  {
    if lines != [] && !Contains(lines[0], GenerationKey) {
      FirstGenerationAt(lines[1..]);
      var k := KeyIndex(lines[1..]);
      assert KeyIndex(lines) == k + 1;
      if k < |lines[1..]| {
        assert lines[k + 1] == lines[1..][k];
      }
    }
  }

  /**
   * None exactly when no output line holds `Generation:`; otherwise the
   * stripped text after the first colon of the first line that does.
   */
  lemma GenerationOfSpec(stdout: string)
    ensures GenerationOf(stdout).None? <==> NoKeyLine(Split(stdout, '\n'))
    ensures var lines := Split(stdout, '\n'); var k := KeyIndex(lines);
      GenerationOf(stdout) == if k == |lines| then None else Some(LineValue(lines[k]))
  {
    var lines := Split(stdout, '\n');
    FirstGenerationNone(lines);
    FirstGenerationAt(lines);
  }

  lemma StripKeepsOut(field: string, c: char)
    requires c !in field
    ensures c !in Strip(field)
  {
    StripSpec(field);
    var v := Strip(field);
    var i := |field| - |TrimStart(field)|;
    assert v == field[i..i + |v|];
  }

  /** A fingerprint holds no colon and neither starts nor ends with white space. */
  lemma GenerationValueShape(stdout: string)
    requires GenerationOf(stdout).Some?
    ensures var v := GenerationOf(stdout).value;
      ':' !in v && (v != [] ==> !IsSpace(v[0]) && !IsSpace(v[|v| - 1]))
  {
    var lines := Split(stdout, '\n');
    GenerationOfSpec(stdout);
    var k := KeyIndex(lines);
    KeyLineHasColon(lines[k]);
    var field := Split(lines[k], ':')[1];
    StripKeepsOut(field, ':');
    StripSpec(field);
  }

  /** The search loop of get_subvolume_hash. */
  method ParseGeneration(stdout: string) returns (generation: Option<string>)
    ensures generation == GenerationOf(stdout)
  {
    var lines := Split(stdout, '\n');
    var i := 0;
    while i < |lines|
      invariant 0 <= i <= |lines|
      invariant FirstGeneration(lines[i..]) == GenerationOf(stdout)
    {
      if Contains(lines[i], GenerationKey) {
        return Some(LineValue(lines[i]));
      }
      assert lines[i..][1..] == lines[i + 1..];
      i := i + 1;
    }
    return None;
  }
}
