/** `separarCodigoProducto`, used by the spreadsheet export to split a stored product such as
    "[00091] NOMBRE" into its code and its name. The text is trimmed, then matched against
    `^\s*\[?\s*(\d+)\s*\]?\s*(.*)$` and, failing that, `^(\d{3,})\s*-?\s*(.*)$`.

    Each pattern is a chain of greedy pieces ending in `(.*)$`. A backtracking matcher tries the
    greedy choice first, and every other choice only starts `(.*)` earlier, so `(.*)` must still
    cover what the greedy choice left. Since `.` matches anything but a line terminator, a
    pattern matches exactly when the tail left by the greedy choices has no line terminator, and
    the groups are then the greedy ones. `MatchBracketed` and `MatchLeadingCode` compute those
    greedy positions. */
module ProductCode {
  import opened Collections
  import opened Text

  datatype Split = Split(code: string, name: string)

  predicate AllDigits(s: string)
  {
    forall i :: 0 <= i < |s| ==> IsDigit(s[i])
  }

  lemma DigitsSlice(s: string, c: nat, d: nat)
    requires c <= d <= |s|
    requires forall j :: c <= j < d ==> IsDigit(s[j])
    ensures AllDigits(s[c..d]) && AllDigits(s[..d][c..])
  {
    assert forall j :: 0 <= j < d - c ==> s[c..d][j] == s[c + j];
  }

  /** `^\s*\[?\s*(\d+)\s*\]?\s*(.*)$`. */
  function MatchBracketed(s: string): (r: Option<Split>)
    ensures r.Some? ==> |r.value.code| > 0 && AllDigits(r.value.code) && Trim(r.value.name) == r.value.name
  {
    var a := SpaceEnd(s, 0);
    var b := if a < |s| && s[a] == '[' then a + 1 else a;
    var c := SpaceEnd(s, b);
    var d := DigitEnd(s, c);
    if d == c then None
    else
      var e := SpaceEnd(s, d);
      var f := if e < |s| && s[e] == ']' then e + 1 else e;
      var g := SpaceEnd(s, f);
      if NoLineTerminator(s[g..]) then
        DigitsSlice(s, c, d);
        TrimIdempotent(s[g..]);
        Some(Split(s[c..d], Trim(s[g..])))
      else None
  }

  /** `^(\d{3,})\s*-?\s*(.*)$`. */
  function MatchLeadingCode(s: string): (r: Option<Split>)
    ensures r.Some? ==> |r.value.code| >= 3 && AllDigits(r.value.code) && Trim(r.value.name) == r.value.name
  {
    var d := DigitEnd(s, 0);
    if d < 3 then None
    else
      var e := SpaceEnd(s, d);
      var f := if e < |s| && s[e] == '-' then e + 1 else e;
      var g := SpaceEnd(s, f);
      if NoLineTerminator(s[g..]) then
        DigitsSlice(s, 0, d);
        TrimIdempotent(s[g..]);
        Some(Split(s[..d], Trim(s[g..])))
      else None
  }

  /** `separarCodigoProducto(text)`, as written: the bracketed pattern first. */
  function SplitProductCode(text: string): (r: Split)
    ensures r.code == "" || AllDigits(r.code)
    ensures r.code == "" <==> MatchBracketed(Trim(text)).None? && MatchLeadingCode(Trim(text)).None?
    ensures r.code == "" ==> r.name == Trim(text)
    ensures Trim(r.name) == r.name
  {
    var s := Trim(text);
    TrimIdempotent(text);
    match MatchBracketed(s)
    case Some(m) => m
    case None =>
      match MatchLeadingCode(s)
      case Some(m) => m
      case None => Split("", s)
  }

  /** A name that `trim` leaves alone and that fits on one line. */
  predicate PlainName(n: string)
  {
    n != [] && !IsSpace(n[0]) && !IsSpace(n[|n| - 1]) && NoLineTerminator(n)
  }

  lemma SpaceEndAt(s: string, i: nat, k: nat)
    requires i <= k <= |s|
    requires forall j :: i <= j < k ==> IsSpace(s[j])
    requires k == |s| || !IsSpace(s[k])
    ensures SpaceEnd(s, i) == k
  {
  }

  lemma DigitEndAt(s: string, i: nat, k: nat)
    requires i <= k <= |s|
    requires forall j :: i <= j < k ==> IsDigit(s[j])
    requires k == |s| || !IsDigit(s[k])
    ensures DigitEnd(s, i) == k
  {
  }

  /** The form `seleccionarProducto` writes, `[${codigo}] ${descripcion}`, splits back into the
      code and the description. */
  lemma {:induction false} SplitSelected(code: string, name: string)
    requires |code| > 0 && AllDigits(code) && PlainName(name)
    ensures SplitProductCode("[" + code + "] " + name) == Split(code, name)
  {
    var t := "[" + code + "] " + name;
    assert t[0] == '[';
    assert t[|t| - 1] == name[|name| - 1];
    TrimOfTrimmed(t);
    TrimOfTrimmed(name);
    BracketedSelected(t, code, name);
  }

  lemma BracketedSelected(t: string, code: string, name: string)
    requires t == "[" + code + "] " + name && |code| > 0 && AllDigits(code)
    requires |name| > 0 && !IsSpace(name[0]) && NoLineTerminator(name) && Trim(name) == name
    ensures MatchBracketed(t) == Some(Split(code, name))
  {
    var n := |code|;
    SelectedCode(t, code, name);
    SelectedName(t, code, name);
    assert SpaceEnd(t, 0) == 0 && t[0] == '[';
    assert SpaceEnd(t, 1) == 1 && DigitEnd(t, 1) == 1 + n;
    assert SpaceEnd(t, 1 + n) == 1 + n && t[1 + n] == ']';
    assert SpaceEnd(t, 2 + n) == 3 + n;
  }

  /** The bracket and the code of the selected form. */
  lemma SelectedCode(t: string, code: string, name: string)
    requires t == "[" + code + "] " + name && |code| > 0 && AllDigits(code)
    ensures t[0] == '[' && t[1 + |code|] == ']'
    ensures SpaceEnd(t, 0) == 0 && SpaceEnd(t, 1) == 1
    ensures DigitEnd(t, 1) == 1 + |code| && t[1..1 + |code|] == code
  {
    var n := |code|;
    assert forall j :: 1 <= j < 1 + n ==> t[j] == code[j - 1];
    assert t[0] == '[' && t[1 + n] == ']';
    SpaceEndAt(t, 0, 0);
    SpaceEndAt(t, 1, 1);
    DigitEndAt(t, 1, 1 + n);
    assert t[1..1 + n] == code;
  }

  /** The space and the name that follow the closing bracket. */
  lemma SelectedName(t: string, code: string, name: string)
    requires t == "[" + code + "] " + name
    requires |name| > 0 && !IsSpace(name[0])
    ensures SpaceEnd(t, 1 + |code|) == 1 + |code| && SpaceEnd(t, 2 + |code|) == 3 + |code|
    ensures t[3 + |code|..] == name
  {
    var n := |code|;
    assert t[1 + n] == ']' && t[2 + n] == ' ' && t[3 + n] == name[0];
    SpaceEndAt(t, 1 + n, 1 + n);
    SpaceEndAt(t, 2 + n, 3 + n);
    assert t[3 + n..] == name;
  }

  lemma ExampleInputs()
    ensures AllDigits("00091") && PlainName("NOMBRE") && PlainName("PARACETAMOL")
    ensures "[" + "00091" + "] " + "NOMBRE" == "[00091] NOMBRE"
    ensures "00091" + " - " + "PARACETAMOL" == "00091 - PARACETAMOL"
    ensures "- " + "PARACETAMOL" == "- PARACETAMOL"
  {
    ExampleNames();
  }

  lemma ExampleNames()
    ensures AllDigits("00091") && PlainName("NOMBRE") && PlainName("PARACETAMOL")
  {
  }

  /** The example of the source's own comment. */
  lemma SplitExample()
    ensures SplitProductCode("[00091] NOMBRE") == Split("00091", "NOMBRE")
  {
    ExampleInputs();
    SplitSelected("00091", "NOMBRE");
  }

  /** As written, the first pattern also accepts a code followed by " - ": the dash stays in the
      name and the second pattern, meant for that form, is never reached on one-line text. */
  lemma {:induction false} DashKeptInName(code: string, name: string)
    requires |code| > 0 && AllDigits(code) && PlainName(name)
    ensures SplitProductCode(code + " - " + name) == Split(code, "- " + name)
  {
    var t := code + " - " + name;
    var n := |code|;
    var rest := "- " + name;
    assert t == code + " " + rest;
    assert t[n] == ' ' && t[n + 1] == '-';
    assert t[|t| - 1] == name[|name| - 1] == rest[|rest| - 1];
    TrimOfTrimmed(t);
    TrimOfTrimmed(rest);
    BracketedDash(t, code, rest);
  }

  lemma BracketedDash(t: string, code: string, rest: string)
    requires t == code + " " + rest && |code| > 0 && AllDigits(code)
    requires |rest| > 0 && rest[0] == '-' && NoLineTerminator(rest) && Trim(rest) == rest
    ensures MatchBracketed(t) == Some(Split(code, rest))
  {
    var n := |code|;
    assert t[..n] == code && t[n] == ' ' && t[n + 1..] == rest by {
      assert forall j :: 0 <= j < n ==> t[j] == code[j];
    }
    assert t[0..n] == t[..n];
    CodeThenSpace(t, n, rest);
    SpaceEndAt(t, n + 1, n + 1);
  }

  /** A run of `n` digits, one space, then text that does not start with white space. */
  lemma CodeThenSpace(t: string, n: nat, rest: string)
    requires 0 < n < |t| && t[n + 1..] == rest
    requires AllDigits(t[..n])
    requires t[n] == ' ' && |rest| > 0 && !IsSpace(rest[0])
    ensures IsDigit(t[0]) && t[n + 1] == rest[0]
    ensures SpaceEnd(t, 0) == 0 && DigitEnd(t, 0) == n && SpaceEnd(t, n) == n + 1
  {
    assert forall j :: 0 <= j < n ==> t[..n][j] == t[j];
    assert t[n + 1] == rest[0];
    SpaceEndAt(t, 0, 0);
    DigitEndAt(t, 0, n);
    SpaceEndAt(t, n, n + 1);
  }

  lemma DashExample()
    ensures SplitProductCode("00091 - PARACETAMOL") == Split("00091", "- PARACETAMOL")
  {
    ExampleInputs();
    DashKeptInName("00091", "PARACETAMOL");
  }

  /** The evident intent: a leading code of three or more digits followed by an optional dash is
      read by the second pattern, so it is tried first; the bracketed form is unaffected. */
  function SplitProductCodeIntended(text: string): (r: Split)
    ensures r.code == "" || AllDigits(r.code)
    ensures r.code == "" ==> r.name == Trim(text)
  {
    var s := Trim(text);
    match MatchLeadingCode(s)
    case Some(m) => m
    case None =>
      match MatchBracketed(s)
      case Some(m) => m
      case None => Split("", s)
  }

  lemma {:induction false} IntendedReadsDash(code: string, name: string)
    requires |code| >= 3 && AllDigits(code) && PlainName(name)
    ensures SplitProductCodeIntended(code + " - " + name) == Split(code, name)
  {
    var t := code + " - " + name;
    assert t[0] == code[0];
    assert t[|t| - 1] == name[|name| - 1];
    TrimOfTrimmed(t);
    TrimOfTrimmed(name);
    LeadingDash(t, code, name);
  }

  lemma LeadingDash(t: string, code: string, name: string)
    requires t == code + " - " + name && |code| >= 3 && AllDigits(code)
    requires |name| > 0 && !IsSpace(name[0]) && NoLineTerminator(name) && Trim(name) == name
    ensures MatchLeadingCode(t) == Some(Split(code, name))
  {
    var n := |code|;
    assert t[..n] == code && t[n] == ' ' && t[n + 1..] == "- " + name by {
      assert forall j :: 0 <= j < n ==> t[j] == code[j];
    }
    DashTail(t, n, name);
  }

  /** After the code: one space, a dash, one space and the name. */
  lemma DashTail(t: string, n: nat, name: string)
    requires 0 < n < |t| && t[n] == ' ' && t[n + 1..] == "- " + name
    requires AllDigits(t[..n])
    requires |name| > 0 && !IsSpace(name[0])
    ensures IsDigit(t[0]) && DigitEnd(t, 0) == n && SpaceEnd(t, n) == n + 1 && t[n + 1] == '-'
    ensures SpaceEnd(t, n + 2) == n + 3 && t[n + 3..] == name
  {
    CodeThenSpace(t, n, "- " + name);
    assert t[n + 2] == ' ' && t[n + 3] == name[0];
    SpaceEndAt(t, n + 2, n + 3);
    assert t[n + 3..] == t[n + 1..][2..];
  }

  lemma {:induction false} IntendedReadsSelected(code: string, name: string)
    requires |code| > 0 && AllDigits(code) && PlainName(name)
    ensures SplitProductCodeIntended("[" + code + "] " + name) == Split(code, name)
  {
    var t := "[" + code + "] " + name;
    assert t[0] == '[';
    assert t[|t| - 1] == name[|name| - 1];
    TrimOfTrimmed(t);
    DigitEndAt(t, 0, 0);
    SplitSelected(code, name);
  }

  lemma IntendedDashExample()
    ensures SplitProductCodeIntended("00091 - PARACETAMOL") == Split("00091", "PARACETAMOL")
  {
    ExampleInputs();
    IntendedReadsDash("00091", "PARACETAMOL");
  }
}
