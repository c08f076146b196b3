/** Logical lines and what each does: ppLines and directive of src/C99/Preprocess.hs, without their short cuts. */
module Lines {
  import opened Options
  import opened MacroText
  import opened Macros
  import opened ExpandProof
  import opened IfStack

  predicate StartsHash(s: string) { var t := DropSpaces(s); t != "" && t[0] == '#' }

  // ---- parentheses and comments of one physical line ----

  /** Past a literal; a trailing backslash can step beyond the end. */
  function LitEnd(s: string, k: nat, q: char): (r: nat)
    ensures r >= k
    decreases |s| - k
  {
    if k >= |s| then k
    else if s[k] == '\\' then LitEnd(s, k + 2, q)
    else if s[k] == q then k + 1
    else LitEnd(s, k + 1, q)
  }

  /** The depth after the line, whether a comment stays open, and where a line comment starts. */
  function ParenDepth(s: string, k: nat, d: int, inComment: bool): (r: (int, bool, Option<nat>))
    ensures r.2.Some? ==> r.2.value < |s|
    decreases |s| - k
  {
    if k >= |s| then (d, inComment, None)
    else if inComment then
      if s[k] == '*' && k + 1 < |s| && s[k + 1] == '/' then ParenDepth(s, k + 2, d, false)
      else ParenDepth(s, k + 1, d, true)
    else if s[k] == '/' && k + 1 < |s| && s[k + 1] == '/' then (d, false, Some(k))
    else if s[k] == '/' && k + 1 < |s| && s[k + 1] == '*' then ParenDepth(s, k + 2, d, true)
    else if IsQuote(s[k]) then ParenDepth(s, LitEnd(s, k + 1, s[k]), d, false)
    else if s[k] == '(' then ParenDepth(s, k + 1, d + 1, false)
    else if s[k] == ')' then ParenDepth(s, k + 1, d - 1, false)
    else ParenDepth(s, k + 1, d, false)
  }

  // ---- merging physical lines ----

  /** A call whose parentheses stay open takes in the lines after it, up to a directive. */
  function MergeLines(depth: int, inComment: bool, logical: string, ls: seq<string>, merged: nat)
    : (r: (string, nat, bool, seq<string>))
    ensures |r.3| <= |ls| && r.3 == ls[|ls| - |r.3|..] && r.1 == merged + |ls| - |r.3|
    decreases |ls|
  {
    if depth > 0 && merged < 512 && ls != [] && !StartsHash(ls[0]) then
      var (d, c, at) := ParenDepth(ls[0], 0, depth, inComment);
      var cut := if at.Some? then ls[0][..at.value] else ls[0];
      MergeLines(d, c, logical + " " + cut, ls[1..], merged + 1)
    else (logical, merged, inComment, ls)
  }

  /** A directive whose comment stays open takes in the lines after it. */
  function MergeDirective(text: string, ls: seq<string>, merged: nat): (r: (string, nat, seq<string>))
    ensures |r.2| <= |ls| && r.2 == ls[|ls| - |r.2|..] && r.1 == merged + |ls| - |r.2|
    decreases |ls|
  {
    if EndsInComment(text) && merged < 4096 && ls != [] then MergeDirective(text + "\n" + ls[0], ls[1..], merged + 1)
    else (text, merged, ls)
  }

  // ---- what a logical line is ----

  /** A line that is no conditional directive. */
  datatype Plain = Text(line: nat, text: string, inComment: bool) | Order(line: nat, word: Option<string>, rest: string)

  /** A conditional directive. */
  datatype Cond = Cond(line: nat, word: string, rest: string)

  /** A directive's word and what follows it. */
  function WordOf(text: string): (Option<string>, string) {
    var t := DropSpaces(text);
    var (word, r) := ReadIdent(DropSpaces(if t == "" then t else t[1..]));
    (word, DropSpaces(r))
  }

  function Classify(text: string, line: nat): Event<Plain, Cond> {
    var (word, rest) := WordOf(text);
    if word == Some("endif") then Endif(Cond(line, "endif", rest))
    else if word == Some("else") then Else(Cond(line, "else", rest))
    else if word == Some("elif") then Elif(Cond(line, "elif", rest))
    else if word == Some("if") || word == Some("ifdef") || word == Some("ifndef") then
      If(Cond(line, word.value, rest))
    else Act(Order(line, word, rest))
  }

  // ---- what it does ----

  datatype World = World(table: Table, errors: seq<nat>)

  type Sound = w: World | w.table.Known() witness World(EMPTY, [])

  /** The file's name, the expression evaluator and the parser of definitions. */
  datatype Env = Env(file: string, holds: (Table, nat, string) -> bool, parse: string -> Option<Macro>)

  function Ordered(env: Env, w: Sound, line: nat, word: Option<string>, rest: string): Sound {
    if word == Some("define") then
      match env.parse(rest)
      case None => w.(errors := w.errors + [line])
      case Some(m) => w.(table := w.table.Define(m))
    else if word == Some("undef") then
      var n := ReadIdent(rest).0;
      if n.Some? then w.(table := w.table.Undef(n.value)) else w
    else if word == Some("error") then w.(errors := w.errors + [line])
    else w
  }

  function Holds(env: Env, w: Sound, c: Cond): bool {
    if c.word == "if" || c.word == "elif" then env.holds(w.table, c.line, c.rest)
    else
      var n := ReadIdent(c.rest).0;
      var defined := n.Some? && w.table.Find(n.value).Some?;
      if c.word == "ifdef" then defined else !defined
  }

  function Acted(env: Env, w: Sound, a: Plain): (Sound, string) {
    match a
    case Text(line, text, inComment) => (w, Expand({}, w.table, Place(env.file, line), text, inComment))
    case Order(line, word, rest) => (Ordered(env, w, line, word, rest), "")
  }

  function Orphaned(w: Sound, c: Cond): Sound { w.(errors := w.errors + [c.line]) }

  function Ruled(env: Env): Rules<Sound, Plain, Cond, string> {
    Rules((w: Sound, a: Plain) => Acted(env, w, a), (a: Plain) => "", "", (w: Sound, c: Cond) => Holds(env, w, c),
      (w: Sound, c: Cond) => Orphaned(w, c))
  }

  // ---- every line the long way ----

  /** How many lines a logical line took in behind its first. */
  ghost predicate Took(lines: seq<string>, merged: nat, rest: seq<string>) {
    |lines| == merged + 1 + |rest| && rest == lines[merged + 1..]
  }

  function NextDirective(lines: seq<string>, line: nat): (r: (Event<Plain, Cond>, nat, seq<string>))
    requires lines != []
    ensures Took(lines, r.1, r.2)
  {
    var (text, merged, rest) := MergeDirective(lines[0], lines[1..], 0);
    (Classify(text, line), merged, rest)
  }

  function NextText(lines: seq<string>, line: nat, inComment: bool): (r: (Event<Plain, Cond>, nat, bool, seq<string>))
    requires lines != []
    ensures Took(lines, r.1, r.3)
  {
    var (d, c, at) := ParenDepth(lines[0], 0, 0, inComment);
    var cut := if d > 0 && at.Some? then lines[0][..at.value] else lines[0];
    var (logical, merged, inComment', rest) := MergeLines(d, c, cut, lines[1..], 0);
    (Act(Text(line, logical, inComment)), merged, inComment', rest)
  }

  /** The next logical line: what it is, how many lines it took in, the comment state after it, what is left. */
  function Next(stack: seq<int>, lines: seq<string>, line: nat, inComment: bool)
    : (r: (Event<Plain, Cond>, nat, bool, seq<string>))
    requires lines != []
    ensures Took(lines, r.1, r.3)
  {
    if !inComment && StartsHash(lines[0]) then
      var (e, merged, rest) := NextDirective(lines, line);
      (e, merged, inComment, rest)
    else if Dead(stack) then (Act(Text(line, lines[0], inComment)), 0, inComment, lines[1..])
    else NextText(lines, line, inComment)
  }

  function Blanks(n: nat): (r: seq<string>)
    ensures |r| == n
  {
    if n == 0 then [] else [""] + Blanks(n - 1)
  }

  /** What a file's lines become. Conditions, directives and expansion, with no short cut taken. */
  function Reference(env: Env, s: Machine<Sound>, lines: seq<string>, line: nat, inComment: bool)
    : (r: (Machine<Sound>, seq<string>))
    ensures |r.1| == |lines|
    decreases |lines|
  {
    if lines == [] then (s, [])
    else
      var (e, merged, inComment', rest) := Next(s.stack, lines, line, inComment);
      var (s1, o) := Step(Ruled(env), s, e);
      var (s2, out) := Reference(env, s1, rest, line + merged + 1, inComment');
      (s2, [o] + Blanks(merged) + out)
  }
}
