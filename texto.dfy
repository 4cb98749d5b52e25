/** The text test of dist/extraer_imagenes.py: the OCR output, stripped of
    leading and trailing whitespace, must be longer than five characters. */
module Texto {

  /** Python's str.isspace for one character: the ASCII controls 9-13 and
      28-31, the space, and the Unicode separators Python treats as
      whitespace. */
  predicate IsSpace(c: char)
  {
    var n := c as int;
    (9 <= n <= 13) || (28 <= n <= 32) || n == 0x85 || n == 0xA0 || n == 0x1680 ||
    (0x2000 <= n <= 0x200A) || n == 0x2028 || n == 0x2029 || n == 0x202F ||
    n == 0x205F || n == 0x3000
  }

  /** s with its leading whitespace removed. */
  function TrimStart(s: string): (r: string)
    ensures |r| <= |s| && r == s[|s| - |r|..]
    ensures forall k :: 0 <= k < |s| - |r| ==> IsSpace(s[k])
    ensures r != [] ==> !IsSpace(r[0])
    decreases |s|
  {
    if s != [] && IsSpace(s[0]) then TrimStart(s[1..]) else s
  }

  /** s with its trailing whitespace removed. */
  function TrimEnd(s: string): (r: string)
    ensures |r| <= |s| && r == s[..|r|]
    ensures forall k :: |r| <= k < |s| ==> IsSpace(s[k])
    ensures r != [] ==> !IsSpace(r[|r| - 1])
    decreases |s|
  {
    if s != [] && IsSpace(s[|s| - 1]) then TrimEnd(s[..|s| - 1]) else s
  }

  /** Python's str.strip() with no argument. */
  function Strip(s: string): string
  {
    TrimEnd(TrimStart(s))
  }

  /** contiene_texto, given the OCR output of the frame. */
  predicate ContieneTexto(texto: string)
  {
    |Strip(texto)| > 5
  }

  /** A frame counts as having text exactly when its OCR output holds two
      non-whitespace characters at least five positions apart. */
  lemma ContieneTextoIff(s: string)
    ensures ContieneTexto(s) <==>
            exists a, b :: 0 <= a && a + 5 <= b < |s| && !IsSpace(s[a]) && !IsSpace(s[b])
  {
    if ContieneTexto(s) {
      TextHasWitnesses(s);
    }
    if exists a, b :: 0 <= a && a + 5 <= b < |s| && !IsSpace(s[a]) && !IsSpace(s[b]) {
      var a, b :| 0 <= a && a + 5 <= b < |s| && !IsSpace(s[a]) && !IsSpace(s[b]);
      WitnessesAreText(s, a, b);
    }
  }

  /** The first and last characters the strip keeps are five positions apart
      or more. */
  lemma TextHasWitnesses(s: string)
    requires ContieneTexto(s)
    ensures exists a, b :: 0 <= a && a + 5 <= b < |s| && !IsSpace(s[a]) && !IsSpace(s[b])
  {
    var u := TrimStart(s);
    var r := TrimEnd(u);
    var a0 := |s| - |u|;
    var b0 := a0 + |r| - 1;
    assert s[a0] == u[0] == r[0];
    assert s[b0] == u[|r| - 1] == r[|r| - 1];
    assert 0 <= a0 && a0 + 5 <= b0 < |s| && !IsSpace(s[a0]) && !IsSpace(s[b0]);
  }

  /** The strip keeps every character from the first to the last
      non-whitespace one. */
  lemma WitnessesAreText(s: string, a: nat, b: nat)
    requires a + 5 <= b < |s| && !IsSpace(s[a]) && !IsSpace(s[b])
    ensures ContieneTexto(s)
  {
    TrimStartStopsBefore(s, a);
    var a0 := |s| - |TrimStart(s)|;
    TrimEndOfSuffix(s, a0, b);
  }

  /** In the suffix from a0, TrimEnd keeps every character up to a
      non-whitespace one at b. */
  lemma TrimEndOfSuffix(s: string, a0: nat, b: nat)
    requires a0 <= b < |s| && !IsSpace(s[b])
    ensures b - a0 < |TrimEnd(s[a0..])|
  {
    assert s[a0..][b - a0] == s[b];
    TrimEndStopsAfter(s[a0..], b - a0);
  }

  /** TrimStart keeps every character from the first non-whitespace one on. */
  lemma TrimStartStopsBefore(s: string, a: nat)
    requires a < |s| && !IsSpace(s[a])
    ensures |s| - |TrimStart(s)| <= a
  {
  }

  /** TrimEnd keeps every character up to the last non-whitespace one. */
  lemma TrimEndStopsAfter(u: string, c: nat)
    requires c < |u| && !IsSpace(u[c])
    ensures c < |TrimEnd(u)|
  {
  }

  /** A short title such as "Tema 1" counts as text. */
  lemma TitleIsText()
    ensures ContieneTexto("Tema 1")
  {
    var t := "Tema 1";
    assert t[0] == 'T' && t[5] == '1';
    WitnessesAreText(t, 0, 5);
  }

  /** Whitespace alone never counts as text. */
  lemma BlankIsNotText(s: string)
    requires forall k :: 0 <= k < |s| ==> IsSpace(s[k])
    ensures !ContieneTexto(s)
  {
    ContieneTextoIff(s);
  }
}
