/** The ad filter of geodata.go: the list parser and the lookup over its result. */
module AdFilter {
  import opened Text
  import opened SuffixIndex

  /** A line of the form "||d^". */
  predicate IsBlockLine(line: string)
    ensures IsBlockLine(line) ==> |line| >= 3
  {
    assert HasPrefix(line, "||") && HasSuffix(line, "^") ==> line[..2][1] == '|' && line[|line| - 1..][0] == '^';
    HasPrefix(line, "||") && HasSuffix(line, "^")
  }

  function Blocked(line: string): string
    requires IsBlockLine(line)
  {
    line[2..|line| - 1]
  }

  predicate IsPlainLine(line: string) {
    Contains(line, ".") && !HasPrefix(line, "/") && !Contains(line, " ")
  }

  predicate IsComment(line: string)
    ensures IsComment(line) <==> line != "" && (line[0] == '#' || line[0] == '!')
  {
    assert line != "" ==> (line[..1] == "#" <==> line[0] == '#') && (line[..1] == "!" <==> line[0] == '!');
    HasPrefix(line, "#") || HasPrefix(line, "!")
  }

  /** The patterns parseAdFilterData keeps for one trimmed line. */
  function LinePatterns(line: string): set<string> {
    if line == "" || IsComment(line) then {}
    else if IsBlockLine(line) then {"." + Blocked(line), Blocked(line)}
    else if IsPlainLine(line) then {line}
    else {}
  }

  /** What one trimmed line of a list blocks, character by character and in terms of
      domain names. Lines that begin with # or ! block nothing; "||d^" blocks d and all
      its subdomains; any other line is a domain if it holds a dot and no space and does
      not begin with a slash, and blocks itself, or with a leading dot what "||d^" blocks. */
  predicate LineBlocks(line: string, name: string) {
    && line != ""
    && line[0] != '#' && line[0] != '!'
    && if |line| >= 3 && line[0] == '|' && line[1] == '|' && line[|line| - 1] == '^' then
         IsOrUnder(name, Core(line[2..|line| - 1]))
       else
         && '.' in line && line[0] != '/' && ' ' !in line
         && if line[0] == '.' then IsOrUnder(name, Core(line)) else name == line
  }

  /** The parser's tests in terms of characters. */
  lemma LineKinds(line: string)
    requires line != ""
    ensures IsBlockLine(line) <==> |line| >= 3 && line[0] == '|' && line[1] == '|' && line[|line| - 1] == '^'
    ensures IsPlainLine(line) <==> '.' in line && line[0] != '/' && ' ' !in line
  {
    assert line[..1] == "/" <==> line[0] == '/';
    assert |line| >= 2 ==> (line[..2] == "||" <==> line[0] == '|' && line[1] == '|');
    assert line[|line| - 1..] == "^" <==> line[|line| - 1] == '^';
    ContainsChar(line, '.');
    ContainsChar(line, ' ');
  }

  lemma ContainsChar(s: string, c: char)
    ensures Contains(s, [c]) <==> c in s
  {
    if Contains(s, [c]) {
      var i :| 0 <= i <= |s| && HasPrefix(s[i..], [c]);
      assert s[i..][..1][0] == s[i];
    }
    if c in s {
      var i :| 0 <= i < |s| && s[i] == c;
      assert s[i..][..1] == [c];
      assert HasPrefix(s[i..], [c]);
    }
  }

  lemma LineMeaning(line: string, name: string)
    ensures Scan(LinePatterns(line), name) <==> LineBlocks(line, name)
  {
    hide HasPrefix, HasSuffix, Contains, Covers, IsOrUnder, Core;
    if line != "" && !IsComment(line) {
      LineKinds(line);
      if IsBlockLine(line) {
        var d := Blocked(line);
        DottedPairMeaning(d, name);
        assert LinePatterns(line) == {"." + d, d};
        assert "." + d in LinePatterns(line) && d in LinePatterns(line);
      } else if IsPlainLine(line) {
        CoversMeaning(line, name);
        assert LinePatterns(line) == {line};
        assert line in LinePatterns(line);
      }
    }
  }

  /** Lines are kept as written and names are lowered, so a line that blocks some name at
      all blocks a lowered one if and only if it holds no capital letter. */
  lemma CapitalLine(line: string)
    ensures (exists name :: LineBlocks(line, Lower(name))) <==> IsLower(line) && exists name :: LineBlocks(line, name)
  {
    if name :| LineBlocks(line, Lower(name)) {
      LineMeaning(line, Lower(name));
      var p :| p in LinePatterns(line) && Covers(p, Lower(name));
      CoveredIsLower(p, name);
      LowerLine(line);
    }
    if n :| IsLower(line) && LineBlocks(line, n) {
      LineMeaning(line, n);
      LowerLine(line);
      var p :| p in LinePatterns(line);
      CapitalPattern(p);
      hide LineBlocks, LinePatterns, Covers;
      var name :| Covers(p, Lower(name));
      LineMeaning(line, Lower(name));
    }
  }

  /** The patterns of a line are as low as the line. */
  lemma LowerLine(line: string)
    ensures forall p :: p in LinePatterns(line) ==> (IsLower(p) <==> IsLower(line))
  {
    if IsBlockLine(line) {
      var d := Blocked(line);
      assert line[..2] == "||" && line[|line| - 1..] == "^" && line == "||" + d + "^";
      assert Lower("||") == "||" && Lower("^") == "^" && Lower(".") == ".";
      LowerParts("||" + d, "^");
      LowerParts("||", d);
      LowerParts(".", d);
    }
  }

  function ListPatterns(lines: seq<string>): set<string> {
    if lines == [] then {} else ListPatterns(lines[..|lines| - 1]) + LinePatterns(TrimSpace(lines[|lines| - 1]))
  }

  method ParseAdFilterData(data: string) returns (result: set<string>)
    ensures result == ListPatterns(Split(data, '\n'))
  {
    result := {};
    var lines := Split(data, '\n');
    for i := 0 to |lines|
      invariant result == ListPatterns(lines[..i])
    {
      var line := TrimSpace(lines[i]);
      assert lines[..i + 1][..i] == lines[..i];
      if line == "" || IsComment(line) {
        continue;
      }
      if IsBlockLine(line) {
        var domain := line[2..|line| - 1];
        result := result + {"." + domain};
        result := result + {domain};
      } else if IsPlainLine(line) {
        result := result + {line};
      }
    }
    assert lines[..|lines|] == lines;
  }

  ghost predicate ListBlocks(lines: seq<string>, name: string) {
    exists i :: 0 <= i < |lines| && LineBlocks(TrimSpace(lines[i]), name)
  }

  /** Parsing a list and looking a name up in the resulting set is the same as asking
      each line of the list in turn. */
  lemma {:induction false} ListMeaning(lines: seq<string>, name: string)
    ensures Scan(ListPatterns(lines), name) <==> ListBlocks(lines, name)
  {
    hide LineBlocks, LinePatterns, TrimSpace, Covers;
    if lines != [] {
      var front, line := lines[..|lines| - 1], TrimSpace(lines[|lines| - 1]);
      ListMeaning(front, name);
      LineMeaning(line, name);
      assert Scan(ListPatterns(lines), name) <==> Scan(ListPatterns(front), name) || Scan(LinePatterns(line), name);
      assert ListBlocks(lines, name) <==> ListBlocks(front, name) || LineBlocks(line, name) by {
        if ListBlocks(front, name) {
          var i :| 0 <= i < |front| && LineBlocks(TrimSpace(front[i]), name);
          assert lines[i] == front[i];
        }
      }
    }
  }
}
