/** What a patched Corefile holds, read line by line and field by field. */
module HostRows {
  import opened Text
  import opened Words

  /** One line for each line of `domains`, and nothing behind them: the address is the first field, what the line names
      follows. */
  ghost predicate Rows(lines: string, ip: string, domains: string) {
    var rows, read := Split('\n', lines), Split('\n', domains);
    && |rows| == |read| + 1 && rows[|read|] == ""
    && forall i: nat | i < |read| :: NonEmpty(Split(' ', rows[i])) == [ip] + NonEmpty(Split(' ', read[i]))
  }

  /** `p` ends with the word `hosts` and the rest of its line up to an opening brace. */
  ghost predicate OpeningOf(p: string, a: string, y: string) {
    && p == a + ("hosts" + (y + "{")) && '\n' !in y && '{' !in y
    && (a == "" || !IsWord(a[|a| - 1])) && !IsWord((y + "{")[0])
  }

  ghost predicate Opens(p: string) { exists a, y :: OpeningOf(p, a, y) }

  /** The first such opening of `t`. */
  ghost predicate OpensFirst(t: string, p: string) { p <= t && Opens(p) && forall q | q <= t && Opens(q) :: |p| <= |q| }

  /** The markers and the lines stand right behind `p`. */
  ghost predicate Inserted(text: string, p: string, lines: string, x: string) {
    text == p + "\n" + ("# --- libre365-dev hosts " + "(generated by patch-coredns-" + "hosts.sh, do not edit) ---")
            + "\n" + lines + "# --- end libre365-dev hosts ---" + x
  }

  /** `x` is `t` without line breaks at its end. */
  ghost predicate WithoutLastBreaks(t: string, x: string) {
    && x <= t && (x == "" || x[|x| - 1] != '\n') && forall i: nat | |x| <= i < |t| :: t[i] == '\n'
  }

  /** `text` is `searched` with the markers and the lines inserted behind its first opening, and without line breaks at
      its end. */
  ghost predicate Stored(searched: string, text: string, ip: string, domains: string) {
    exists p, lines, x ::
      && Inserted(text, p, lines, x) && Rows(lines, ip, domains)
      && OpensFirst(searched, p) && WithoutLastBreaks(searched, p + x)
  }

  // ---------------------------------------------------------------------------------------------
  // Reading one row.
  // ---------------------------------------------------------------------------------------------

  lemma {:induction false} BlanksHaveNoFields(s: string)
    requires forall c | c in s :: c == ' '
    ensures NonEmpty(Split(' ', s)) == []
    decreases |s|
  {
    if s != "" {
      assert s[0] in s && s == [s[0]] + s[1..];
      assert forall c | c in s[1..] :: c in s;
      BlanksHaveNoFields(s[1..]);
      var p := Split(' ', s[1..]);
      assert ([""] + p)[1..] == p;
    }
  }

  lemma RowFields(ip: string, l: string)
    requires ip != "" && ' ' !in ip
    ensures NonEmpty(Split(' ', "        " + ip + " " + l)) == [ip] + NonEmpty(Split(' ', l))
  {
    var pad := "       ";
    assert "        " + ip + " " + l == pad + [' '] + (ip + [' '] + l);
    SplitConcat(' ', pad, ip + [' '] + l);
    SplitAtWord(' ', ip, l);
    BlanksHaveNoFields(pad);
    NonEmptyConcat(Split(' ', pad), [ip] + Split(' ', l));
    NonEmptyConcat([ip], Split(' ', l));
    AllNonEmpty([ip]);
  }
}
