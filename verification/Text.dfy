/** The few string tests the inventory policy makes. */
module Text {
  import opened Inventory

  predicate IsSpace(c: char) {
    c in {'\t', '\n', '\U{000B}', '\U{000C}', '\r', ' ', '\U{0085}', '\U{00A0}', '\U{1680}',
          '\U{2028}', '\U{2029}', '\U{202F}', '\U{205F}', '\U{3000}'}
    || '\U{2000}' <= c <= '\U{200A}'
  }

  function TrimLeft(s: string): string {
    if s != "" && IsSpace(s[0]) then TrimLeft(s[1..]) else s
  }

  function TrimRight(s: string): string {
    if s != "" && IsSpace(s[|s| - 1]) then TrimRight(s[..|s| - 1]) else s
  }

  function TrimSpace(s: string): string {
    TrimRight(TrimLeft(s))
  }

  predicate AllSpace(s: string) {
    forall i :: 0 <= i < |s| ==> IsSpace(s[i])
  }

  lemma {:induction false} TrimLeftExactly(s: string) returns (left: string)
    ensures s == left + TrimLeft(s) && AllSpace(left)
    ensures TrimLeft(s) != "" ==> !IsSpace(TrimLeft(s)[0])
  {
    if s != "" && IsSpace(s[0]) {
      var rest := TrimLeftExactly(s[1..]);
      left := [s[0]] + rest;
      assert s == [s[0]] + s[1..];
    } else {
      left := "";
    }
  }

  lemma {:induction false} TrimRightExactly(s: string) returns (right: string)
    ensures s == TrimRight(s) + right && AllSpace(right)
    ensures TrimRight(s) != "" ==> !IsSpace(TrimRight(s)[|TrimRight(s)| - 1])
  {
    if s != "" && IsSpace(s[|s| - 1]) {
      var rest := TrimRightExactly(s[..|s| - 1]);
      right := rest + [s[|s| - 1]];
      assert s == s[..|s| - 1] + [s[|s| - 1]];
    } else {
      right := "";
    }
  }

  /** What is taken off both ends is white space, and no more could be taken off. */
  lemma TrimExactly(s: string) returns (left: string, right: string)
    ensures var t := TrimSpace(s);
      && s == left + t + right && AllSpace(left) && AllSpace(right)
      && (t != "" ==> !IsSpace(t[0]) && !IsSpace(t[|t| - 1]))
  {
    left := TrimLeftExactly(s);
    right := TrimRightExactly(TrimLeft(s));
    assert TrimSpace(s) != "" ==> TrimSpace(s)[0] == TrimLeft(s)[0];
  }

  /** A text keeps all of itself exactly if neither end is white space, and nothing exactly if it is all
      white space. */
  lemma TrimmedExactly(s: string)
    ensures TrimSpace(s) == s <==> s == "" || (!IsSpace(s[0]) && !IsSpace(s[|s| - 1]))
    ensures TrimSpace(s) == "" <==> AllSpace(s)
  {
    var left, right := TrimExactly(s);
    var t := TrimSpace(s);
    assert |s| == |left| + |t| + |right|;
    if left != "" { assert s[0] == left[0]; }
    if right != "" { assert s[|s| - 1] == right[|right| - 1]; }
    if t != "" { assert s[|left|] == t[0]; }
  }

  predicate IsAlnum(c: char) {
    'A' <= c <= 'Z' || 'a' <= c <= 'z' || '0' <= c <= '9'
  }

  /** New aliases and key names: a letter or digit, then up to 127 of a small alphabet. */
  predicate SafeName(s: string) {
    && 1 <= |s| <= 128 && IsAlnum(s[0])
    && forall i :: 1 <= i < |s| ==> IsAlnum(s[i]) || s[i] in {'.', '_', '-'}
  }

  predicate ContainsAny(s: string, chars: set<char>) {
    exists i :: 0 <= i < |s| && s[i] in chars
  }

  predicate Contains(s: string, sub: string) {
    |sub| <= |s| && (s[..|sub|] == sub || (s != "" && Contains(s[1..], sub)))
  }

  predicate HasControlCharacter(s: string) {
    exists i :: 0 <= i < |s| && (s[i] < ' ' || s[i] == '\U{007F}')
  }

  function Lower(s: string): string {
    seq(|s|, i requires 0 <= i < |s| => if 'A' <= s[i] <= 'Z' then s[i] - 'A' + 'a' else s[i])
  }

  /** The stored transfer mode; the default is stored as the empty string. */
  function NormalizeTransfer(value: string): Option<string> {
    var mode := Lower(TrimSpace(value));
    if mode == "" || mode == "auto" then Some("")
    else if mode == "shell" || mode == "sftp" then Some(mode)
    else None
  }
}
