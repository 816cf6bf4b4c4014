/** What the digit-by-digit printers have in common. */
module DigitPrinter {
  import opened Bytes
  import opened Text

  /** The first `pos` characters of `full` have been written over `s`. */
  ghost predicate Written(str: array<char>, s: string, full: string, pos: nat)
    reads str
  {
    pos <= |full| && pos <= |s| && str[..] == Splice(s, 0, full[..pos])
  }

  /** What a printer leaves in a buffer of `len` characters. */
  function Cut(full: string, len: nat): string {
    full[..Min(len, |full|)]
  }

  method Emit(str: array<char>, ghost s: string, ghost full: string, pos: nat, c: char)
    requires Written(str, s, full, pos) && pos < str.Length == |s| && pos < |full| && full[pos] == c
    modifies str
    ensures Written(str, s, full, pos + 1)
  {
    assert full[..pos + 1] == full[..pos] + [c];
    OneMore(s, full[..pos], c);
    hide Splice;
    Store(str, pos, [c]);
  }

  lemma StartWritten(str: array<char>, s: string, full: string)
    requires str[..] == s
    ensures Written(str, s, full, 0)
  {
  }

  lemma PrefixStep(full: string, pos: nat, t: string, rest: string)
    requires pos <= |full| && full[pos..] == t + rest
    ensures t <= full[pos..] && pos + |t| <= |full| && full[pos + |t|..] == rest
  {
    assert full[pos + |t|..] == full[pos..][|t|..];
  }

  /** Writing stops at the end of the buffer or of the text. */
  lemma CutHere(str: array<char>, s: string, full: string, len: nat, pos: nat)
    requires Written(str, s, full, pos) && pos <= len && (pos == len || pos == |full|) && len <= |s|
    ensures str[..] == Splice(s, 0, Cut(full, len))
  {
  }

  lemma OneMore(s: string, t: string, c: char)
    requires |t| < |s|
    ensures Splice(Splice(s, 0, t), |t|, [c]) == Splice(s, 0, t + [c])
  {
    var r := Splice(s, 0, t);
    assert r[..|t|] == t && r[|t| + 1..] == s[|t| + 1..];
  }
}
