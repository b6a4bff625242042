/** The launch line that main hands to the shell (cuda_gpupick/cuda_gpupick.py,
    lines 153-164): the device list for CUDA_VISIBLE_DEVICES, the numactl
    directive and the user's command, joined with spaces. */
module Launch {

  predicate IsDigit(c: char) {
    '0' <= c <= '9'
  }

  function DigitChar(d: nat): (c: char)
    requires d < 10
    ensures IsDigit(c)
  {
    "0123456789"[d]
  }

  function DigitValue(c: char): (d: nat)
    requires IsDigit(c)
    ensures d < 10
  {
    (c - '0') as nat
  }

  /** Python's str() of a non-negative integer: its decimal digits, without
      leading zeros. */
  function NatToString(n: nat): (s: string)
    ensures |s| >= 1 && forall p :: 0 <= p < |s| ==> IsDigit(s[p])
    ensures |s| > 1 ==> s[0] != '0'
  {
    if n < 10 then [DigitChar(n)] else NatToString(n / 10) + [DigitChar(n % 10)]
  }

  /** Python's str() of an integer: a minus sign before negative ones. */
  function IntToString(i: int): (s: string)
    ensures |s| >= 1
    ensures s[0] == '-' <==> i < 0
    ensures forall p :: 0 <= p < |s| ==> IsDigit(s[p]) || (p == 0 && s[p] == '-')
  {
    if i < 0 then "-" + NatToString(-i) else NatToString(i)
  }

  /** The value of a string of decimal digits. */
  function ParseNat(s: string): nat
    requires forall p :: 0 <= p < |s| ==> IsDigit(s[p])
  {
    if s == [] then 0 else ParseNat(s[..|s| - 1]) * 10 + DigitValue(s[|s| - 1])
  }

  /** The value of a decimal integer, with an optional minus sign. */
  function ParseInt(s: string): int
    requires s != [] && s[0] == '-' ==> forall p :: 1 <= p < |s| ==> IsDigit(s[p])
    requires s == [] || s[0] != '-' ==> forall p :: 0 <= p < |s| ==> IsDigit(s[p])
  {
    if s != [] && s[0] == '-' then -(ParseNat(s[1..]) as int) else ParseNat(s)
  }

  lemma {:induction false} ParseNatToString(n: nat)
    ensures ParseNat(NatToString(n)) == n
  {
    if n >= 10 {
      ParseNatToString(n / 10);
      var s := NatToString(n);
      assert s[..|s| - 1] == NatToString(n / 10);
    }
  }

  /** The decimal form of an integer reads back as that integer. */
  lemma IntToStringRoundTrip(i: int)
    ensures ParseInt(IntToString(i)) == i
  {
    var s := IntToString(i);
    if i < 0 {
      ParseNatToString(-i);
      assert s == "-" + NatToString(-i);
      assert s[1..] == NatToString(-i);
      assert ParseInt(s) == -(ParseNat(NatToString(-i)) as int);
    } else {
      ParseNatToString(i);
      assert s == NatToString(i);
      assert ParseInt(s) == ParseNat(NatToString(i));
    }
  }

  /** Python's `sep.join(parts)`. */
  function Join(parts: seq<string>, sep: string): (s: string)
    ensures parts == [] ==> s == ""
  {
    if parts == [] then ""
    else if |parts| == 1 then parts[0]
    else parts[0] + sep + Join(parts[1..], sep)
  }

  /** Python's `s.split(c)` for a one-character separator: the pieces
      between separators, empty ones included; always at least one. */
  function Split(s: string, c: char): (r: seq<string>)
    ensures |r| >= 1
  {
    if s == [] then [""]
    else
      var rest := Split(s[1..], c);
      if s[0] == c then [""] + rest else [[s[0]] + rest[0]] + rest[1..]
  }

  /** A string without the separator splits into itself. */
  lemma {:induction false} SplitNoSeparator(s: string, c: char)
    requires c !in s
    ensures Split(s, c) == [s]
  {
    if s != [] {
      SplitNoSeparator(s[1..], c);
      assert [s[0]] + s[1..] == s;
    }
  }

  /** A separator cuts a string in two independent halves. */
  lemma {:induction false} SplitAppend(x: string, y: string, c: char)
    ensures Split(x + [c] + y, c) == Split(x, c) + Split(y, c)
  {
    if x == [] {
      SplitSeparatorFirst(y, c);
      assert x + [c] + y == [c] + y;
    } else {
      var t := x[1..];
      SplitAppend(t, y, c);
      assert x + [c] + y == [x[0]] + (t + [c] + y);
      assert x == [x[0]] + t;
      SplitAppendStep(x[0], t, t + [c] + y, y, c);
    }
  }

  /** One more character in front of `t`, when the split of `u` is the
      split of `t` followed by the split of `y`. */
  lemma SplitAppendStep(a: char, t: string, u: string, y: string, c: char)
    requires Split(u, c) == Split(t, c) + Split(y, c)
    ensures Split([a] + u, c) == Split([a] + t, c) + Split(y, c)
  {
    if a == c {
      SplitSeparatorFirst(u, c);
      SplitSeparatorFirst(t, c);
    } else {
      SplitOtherFirst(a, u, c);
      SplitOtherFirst(a, t, c);
      JoinFirstPiece([a], Split(t, c), Split(y, c));
    }
  }

  /** Gluing a prefix onto the first piece commutes with appending pieces. */
  lemma JoinFirstPiece(w: string, r: seq<string>, r': seq<string>)
    requires |r| >= 1
    ensures [w + (r + r')[0]] + (r + r')[1..] == ([w + r[0]] + r[1..]) + r'
  {
    assert (r + r')[0] == r[0];
    assert (r + r')[1..] == r[1..] + r';
  }

  /** A leading separator opens an empty piece. */
  lemma SplitSeparatorFirst(t: string, c: char)
    ensures Split([c] + t, c) == [""] + Split(t, c)
  {
    assert ([c] + t)[1..] == t;
  }

  /** Any other leading character joins the first piece. */
  lemma SplitOtherFirst(a: char, t: string, c: char)
    requires a != c
    ensures Split([a] + t, c) == [[a] + Split(t, c)[0]] + Split(t, c)[1..]
  {
    assert ([a] + t)[0] == a && ([a] + t)[1..] == t;
  }

  /** Joining pieces that do not contain the separator, then splitting,
      gives the pieces back. */
  lemma {:induction false} SplitJoin(parts: seq<string>, c: char)
    requires parts != []
    requires forall p :: 0 <= p < |parts| ==> c !in parts[p]
    ensures Split(Join(parts, [c]), c) == parts
  {
    if |parts| == 1 {
      SplitNoSeparator(parts[0], c);
    } else {
      SplitJoin(parts[1..], c);
      SplitAppend(parts[0], Join(parts[1..], [c]), c);
      SplitNoSeparator(parts[0], c);
      assert parts == [parts[0]] + parts[1..];
    }
  }

  /** The value of CUDA_VISIBLE_DEVICES: the chosen indices in decimal,
      separated by commas. */
  function VisibleDevices(chosen: seq<nat>): (s: string)
    ensures s == "" <==> chosen == []
    ensures forall p :: 0 <= p < |s| ==> IsDigit(s[p]) || s[p] == ','
  {
    var parts := seq(|chosen|, k requires 0 <= k < |chosen| => NatToString(chosen[k]));
    JoinOfDigits(parts, ",");
    assert chosen != [] ==> parts[0] != "";
    Join(parts, ",")
  }

  /** Reads a list of decimal pieces back as numbers. */
  function ParseList(pieces: seq<string>): seq<nat>
    requires forall k :: 0 <= k < |pieces| ==> forall p :: 0 <= p < |pieces[k]| ==> IsDigit(pieces[k][p])
  {
    seq(|pieces|, k requires 0 <= k < |pieces| => ParseNat(pieces[k]))
  }

  /** The device list reads back as the chosen indices, in the chosen order. */
  lemma VisibleDevicesRoundTrip(chosen: seq<nat>)
    requires chosen != []
    ensures var pieces := Split(VisibleDevices(chosen), ',');
      && (forall k :: 0 <= k < |pieces| ==> forall p :: 0 <= p < |pieces[k]| ==> IsDigit(pieces[k][p]))
      && ParseList(pieces) == chosen
  {
    var parts := seq(|chosen|, k requires 0 <= k < |chosen| => NatToString(chosen[k]));
    forall k | 0 <= k < |parts| ensures ',' !in parts[k] {
      assert forall p :: 0 <= p < |parts[k]| ==> IsDigit(parts[k][p]);
    }
    SplitJoin(parts, ',');
    forall k | 0 <= k < |chosen| ensures ParseNat(parts[k]) == chosen[k] {
      ParseNatToString(chosen[k]);
    }
  }

  /** The numactl directive that binds to NUMA node `node` and prefers its memory. */
  function NumactlDirective(node: int): (s: string)
    ensures Split(s, ' ') == ["numactl", "-N", IntToString(node), "--preferred", IntToString(node)]
  {
    DirectiveFields(IntToString(node));
    "numactl -N " + IntToString(node) + " --preferred " + IntToString(node)
  }

  /** The directive's words, for a node number without spaces. */
  lemma DirectiveFields(num: string)
    requires ' ' !in num
    ensures Split("numactl -N " + num + " --preferred " + num, ' ')
         == ["numactl", "-N", num, "--preferred", num]
  {
    assert "numactl -N " == "numactl" + " " + "-N" + " " by {}
    assert " --preferred " == " " + "--preferred" + " " by {}
    Regroup("numactl", "-N", num, "--preferred", " ");
    FiveFields("numactl", "-N", num, "--preferred");
  }

  /** Moving the brackets of the directive's words and separators. */
  lemma Regroup(a: string, b: string, c: string, d: string, sp: string)
    ensures (a + sp + b + sp) + c + (sp + d + sp) + c == a + sp + (b + sp + (c + sp + (d + sp + c)))
  {
  }

  /** Five space-free words, each but the last followed by a space, are
      five fields. */
  lemma FiveFields(w1: string, w2: string, num: string, w3: string)
    requires ' ' !in w1 && ' ' !in w2 && ' ' !in num && ' ' !in w3
    ensures Split(w1 + " " + (w2 + " " + (num + " " + (w3 + " " + num))), ' ') == [w1, w2, num, w3, num]
  {
    LeadingField(w1, w2 + " " + (num + " " + (w3 + " " + num)));
    LeadingField(w2, num + " " + (w3 + " " + num));
    LeadingField(num, w3 + " " + num);
    LeadingField(w3, num);
    SplitNoSeparator(num, ' ');
  }

  /** The full launch line: the environment assignment, the numactl
      directive (empty when no device is requested) and the command words,
      joined with single spaces. */
  function CommandLine(chosen: seq<nat>, numactl: string, command: seq<string>): (s: string)
    ensures Split(s, ' ')
         == Split("CUDA_VISIBLE_DEVICES=" + VisibleDevices(chosen), ' ') + Split(numactl, ' ')
            + Split(Join(command, " "), ' ')
  {
    LineFields("CUDA_VISIBLE_DEVICES=" + VisibleDevices(chosen), numactl, Join(command, " "));
    Join(["CUDA_VISIBLE_DEVICES=" + VisibleDevices(chosen), numactl, Join(command, " ")], " ")
  }

  /** Three pieces joined with single spaces split into the fields of each. */
  lemma LineFields(a: string, b: string, c: string)
    ensures Split(Join([a, b, c], " "), ' ') == Split(a, ' ') + Split(b, ' ') + Split(c, ' ')
  {
    assert [a, b, c][1..] == [b, c] && [b, c][1..] == [c];
    assert Join([b, c], " ") == b + " " + c;
    assert Join([a, b, c], " ") == a + " " + (b + " " + c);
    assert " " == [' '];
    SplitAppend(a, b + [' '] + c, ' ');
    SplitAppend(b, c, ' ');
  }

  /** The launch line's space-separated fields: the assignment, the numactl
      words naming the node twice, then the command's own fields. */
  lemma CommandLineFields(chosen: seq<nat>, node: int, command: seq<string>)
    ensures Split(CommandLine(chosen, NumactlDirective(node), command), ' ')
         == ["CUDA_VISIBLE_DEVICES=" + VisibleDevices(chosen),
             "numactl", "-N", IntToString(node), "--preferred", IntToString(node)]
            + Split(Join(command, " "), ' ')
  {
    AssignmentField(VisibleDevices(chosen));
  }

  /** The assignment of a device list without spaces is a single field. */
  lemma AssignmentField(devices: string)
    requires forall p :: 0 <= p < |devices| ==> IsDigit(devices[p]) || devices[p] == ','
    ensures Split("CUDA_VISIBLE_DEVICES=" + devices, ' ') == ["CUDA_VISIBLE_DEVICES=" + devices]
  {
    var name := "CUDA_VISIBLE_DEVICES=";
    VariableNameHasNoSpace();
    assert ' ' !in devices;
    assert ' ' !in name + devices;
    SplitNoSeparator(name + devices, ' ');
  }

  lemma VariableNameHasNoSpace()
    ensures ' ' !in "CUDA_VISIBLE_DEVICES="
  {
    var a, b, c := "CUDA_", "VISIBLE_", "DEVICES=";
    assert ' ' !in a by {}
    assert ' ' !in b by {}
    assert ' ' !in c by {}
    assert "CUDA_VISIBLE_DEVICES=" == a + b + c;
  }

  /** A first piece without spaces, then a space, is the first field. */
  lemma LeadingField(w: string, rest: string)
    requires ' ' !in w
    ensures Split(w + " " + rest, ' ') == [w] + Split(rest, ' ')
  {
    assert w + " " + rest == w + [' '] + rest;
    SplitAppend(w, rest, ' ');
    SplitNoSeparator(w, ' ');
  }

  /** With no device requested the line is the empty assignment, two spaces
      (around the empty numactl directive) and the command. */
  lemma NoDeviceCommandLine(command: seq<string>)
    ensures CommandLine([], "", command) == "CUDA_VISIBLE_DEVICES=  " + Join(command, " ")
  {
    assert VisibleDevices([]) == "";
    assert "CUDA_VISIBLE_DEVICES=" + "" == "CUDA_VISIBLE_DEVICES=";
    JoinEmptyMiddle("CUDA_VISIBLE_DEVICES=", Join(command, " "));
    assert "CUDA_VISIBLE_DEVICES=  " == "CUDA_VISIBLE_DEVICES=" + " " + " " by {}
  }

  /** An empty middle piece leaves two separators in a row. */
  lemma JoinEmptyMiddle(a: string, c: string)
    ensures Join([a, "", c], " ") == a + " " + " " + c
  {
    assert [a, "", c][1..] == ["", c] && ["", c][1..] == [c];
    assert Join(["", c], " ") == "" + " " + c;
    assert Join([a, "", c], " ") == a + " " + ("" + " " + c);
  }

  /** Joining decimal pieces with a one-character separator gives digits
      and separators only. */
  lemma {:induction false} JoinOfDigits(parts: seq<string>, sep: string)
    requires |sep| == 1
    requires forall k :: 0 <= k < |parts| ==> forall p :: 0 <= p < |parts[k]| ==> IsDigit(parts[k][p])
    ensures forall p :: 0 <= p < |Join(parts, sep)| ==> IsDigit(Join(parts, sep)[p]) || Join(parts, sep)[p] == sep[0]
  {
    if |parts| > 1 {
      JoinOfDigits(parts[1..], sep);
      var first, rest := parts[0], Join(parts[1..], sep);
      var s := Join(parts, sep);
      assert s == first + sep + rest;
      assert forall p :: 0 <= p < |first| ==> IsDigit(first[p]);
      forall p | 0 <= p < |s| ensures IsDigit(s[p]) || s[p] == sep[0] {
        if p < |first| {
          assert s[p] == first[p];
        } else if p == |first| {
          assert s[p] == sep[0];
        } else {
          assert s[p] == rest[p - |first| - 1];
        }
      }
    } else if |parts| == 1 {
      assert forall p :: 0 <= p < |parts[0]| ==> IsDigit(parts[0][p]);
    }
  }
}
