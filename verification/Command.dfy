/** peachos_parse_command: a command line cut into a linked list of arguments. */
module Commands {
  import opened Memory
  import opened Heaps
  import opened Kheap
  import opened Paging
  import opened Processes
  import opened Strings
  import opened Strtok

  const COMMAND_SIZE := 1024
  const ARGUMENT_SIZE := 512
  const SPACE: Byte := ' ' as int

  /** The size of a list node: its argument and the pointer to the next one. */
  const NODE_SIZE := ARGUMENT_SIZE + 4

  /** A list node. Its 512 argument bytes are written once, before it is linked. */
  class CommandArgument {
    const argument: seq<Byte>
    var next: CommandArgument?

    constructor (bytes: seq<Byte>)
      ensures argument == bytes && next == null
    {
      argument, next := bytes, null;
    }
  }

  /** `nodes` are the members of the list that starts at `root`, in order. */
  ghost predicate IsList(root: CommandArgument?, nodes: seq<CommandArgument>)
    reads nodes
  {
    var isList :=
      && root == (if nodes == [] then null else nodes[0])
      && forall i: nat :: i < |nodes| ==> LinkOk(nodes, i);
    isList
  }

  ghost predicate LinkOk(nodes: seq<CommandArgument>, i: nat)
    requires i < |nodes|
    reads nodes[i]
  {
    nodes[i].next == if i + 1 < |nodes| then nodes[i + 1] else null
  }

  /** The argument of a node is the given word, cut to what fits. */
  ghost predicate HoldsWord(node: CommandArgument, word: seq<Byte>) {
    && |node.argument| == ARGUMENT_SIZE && 0 in node.argument
    && CString(node.argument) == Cut(word, ARGUMENT_SIZE - 1)
  }

  /** The words of a command line: only its first 1023 characters are looked at. */
  function CommandWords(command: seq<Byte>): seq<seq<Byte>> {
    Words(Cut(CString(command), COMMAND_SIZE - 1), [SPACE])
  }

  /** Words with one space between them. */
  function Joined(words: seq<seq<Byte>>): seq<Byte> {
    if words == [] then [] else if |words| == 1 then words[0] else words[0] + [32] + Joined(words[1..])
  }

  /** A word: neither empty nor with a space or a NUL in it. */
  predicate IsWord(w: seq<Byte>) {
    w != [] && forall i :: 0 <= i < |w| ==> w[i] != 32 && w[i] != 0
  }

  /** A word that begins at `p` and is followed by a space or by nothing. */
  lemma FirstWord(s: seq<Byte>, p: nat, w: seq<Byte>)
    requires IsWord(w) && p + |w| <= |s| && s[p..p + |w|] == w && (p + |w| == |s| || s[p + |w|] == 32)
    ensures Spans(s, [SPACE], p) == [Span(p, p + |w|)] + Spans(s, [SPACE], p + |w|)
  {
    forall i | p <= i < p + |w| ensures s[i] == w[i - p] {
      assert s[p..p + |w|][i - p] == s[i];
    }
    WordEndIs(s, [SPACE], p, p + |w|);
  }

  /** The words from `p` on are the given ones. */
  ghost predicate WordsFrom(s: seq<Byte>, p: nat, words: seq<seq<Byte>>)
    requires p <= |s|
  {
    var spans := Spans(s, [SPACE], p);
    var from := |spans| == |words| && forall i :: 0 <= i < |words| ==> SpanIs(s, spans[i], words[i]);
    from
  }

  predicate SpanIs(s: seq<Byte>, w: Span, word: seq<Byte>) {
    w.first <= w.end <= |s| && s[w.first..w.end] == word
  }

  lemma OneMoreWord(s: seq<Byte>, p: nat, w: seq<Byte>, e: nat, words: seq<seq<Byte>>)
    requires IsWord(w) && p + |w| <= |s| && s[p..p + |w|] == w && (p + |w| == |s| || s[p + |w|] == 32)
    requires p + |w| <= e <= |s| && Spans(s, [SPACE], e) == Spans(s, [SPACE], p + |w|) && WordsFrom(s, e, words)
    ensures WordsFrom(s, p, [w] + words)
  {
    FirstWord(s, p, w);
  }

  lemma JoinedBegins(words: seq<seq<Byte>>)
    requires words != []
    ensures var s, n := Joined(words), |words[0]|;
            && n <= |s| && s[..n] == words[0]
            && if |words| == 1 then n == |s| else n < |s| && s[n] == 32 && s[n + 1..] == Joined(words[1..])
  {
  }

  /** Cutting off what is before `p` and then `n` more. */
  lemma CutFurther(s: seq<Byte>, p: nat, n: nat)
    requires p + n <= |s|
    ensures s[p..][..n] == s[p..p + n] && s[p..][n..] == s[p + n..] && (p + n < |s| ==> s[p..][n] == s[p + n])
  {
  }

  lemma LastWord(s: seq<Byte>, p: nat, w: seq<Byte>)
    requires p <= |s| && s[p..] == w && IsWord(w)
    ensures WordsFrom(s, p, [w])
  {
    assert s[p..p + |w|] == w && WordsFrom(s, |s|, []);
    OneMoreWord(s, p, w, |s|, []);
    assert [w] + [] == [w];
  }

  lemma WordAndSpace(s: seq<Byte>, p: nat, w: seq<Byte>, words: seq<seq<Byte>>)
    requires IsWord(w) && p + |w| < |s| && s[p..p + |w|] == w && s[p + |w|] == 32 && WordsFrom(s, p + |w| + 1, words)
    ensures WordsFrom(s, p, [w] + words)
  {
    SpansAfterDelimiter(s, [SPACE], p + |w|);
    OneMoreWord(s, p, w, p + |w| + 1, words);
  }

  /** The words stand in `s` from `p` to the end, a space between them. */
  ghost predicate Stand(s: seq<Byte>, p: nat, words: seq<seq<Byte>>)
    requires words != []
    decreases |words|
  {
    var e := p + |words[0]|;
    && IsWord(words[0])
    && if |words| == 1 then e == |s| && s[p..] == words[0]
       else e < |s| && s[p..e] == words[0] && s[e] == 32 && Stand(s, e + 1, words[1..])
  }

  lemma {:induction false} JoinedStand(s: seq<Byte>, p: nat, words: seq<seq<Byte>>)
    requires p <= |s| && s[p..] == Joined(words) && words != [] && forall i :: 0 <= i < |words| ==> IsWord(words[i])
    ensures Stand(s, p, words)
    decreases |words|
  {
    JoinedBegins(words);
    if |words| > 1 {
      CutFurther(s, p, |words[0]|);
      CutFurther(s, p, |words[0]| + 1);
      JoinedStand(s, p + |words[0]| + 1, words[1..]);
    }
  }

  lemma {:induction false} StandingAreFound(s: seq<Byte>, p: nat, words: seq<seq<Byte>>)
    requires words != [] && Stand(s, p, words)
    ensures p <= |s| && WordsFrom(s, p, words)
    decreases |words|
  {
    var w, rest := words[0], words[1..];
    assert words == [w] + rest;
    if |words| == 1 {
      LastWord(s, p, w);
    } else {
      StandingAreFound(s, p + |w| + 1, rest);
      WordAndSpace(s, p, w, rest);
    }
  }

  lemma {:induction false} JoinedHasNoNul(words: seq<seq<Byte>>)
    requires forall i :: 0 <= i < |words| ==> IsWord(words[i])
    ensures NoNul(Joined(words))
  {
    if |words| > 1 {
      JoinedHasNoNul(words[1..]);
    }
    if words != [] {
      assert IsWord(words[0]);
    }
  }

  /** Words that are written with a space between them are found again, in a line of at most 1023 characters. */
  lemma JoinedWordsAreFound(words: seq<seq<Byte>>)
    requires |Joined(words)| <= 1023 && forall i :: 0 <= i < |words| ==> IsWord(words[i])
    ensures CommandWords(Joined(words) + [0]) == words
  {
    var s := Joined(words);
    JoinedHasNoNul(words);
    CStringPrefix(s + [0], |s|);
    assert (s + [0])[..|s|] == s && s[0..] == s;
    if words != [] {
      JoinedStand(s, 0, words);
      StandingAreFound(s, 0, words);
    }
    forall i | 0 <= i < |words| ensures Words(s, [SPACE])[i] == words[i] {
      assert SpanIs(s, Spans(s, [SPACE], 0)[i], words[i]);
    }
  }

  /** Allocations of one block each, by the process with the given space, that took the blocks `used`. */
  ghost predicate Paid(means0: Means, sp: Space, used: set<nat>, means: Means) {
    var paid :=
      && Grown(means0.runs, means0.ram, sp, used, means.runs, means.ram)
      && means.blocks + |used| == means0.blocks && means.slots + |used| == means0.slots;
    paid
  }

  lemma NothingPaid(means: Means, sp: Space)
    ensures Paid(means, sp, {}, means)
  {
    NotGrown(means.runs, means.ram, sp);
  }

  lemma PaidBoth(means0: Means, sp: Space, used: set<nat>, means1: Means, more: set<nat>, means2: Means)
    requires Paid(means0, sp, used, means1) && Paid(means1, sp, more, means2)
    ensures Paid(means0, sp, used + more, means2) && |used + more| == |used| + |more|
  {
    GrownBoth(means0.runs, means0.ram, sp, used, means1.runs, means1.ram, more, means2.runs, means2.ram);
  }

  /** Process `q` is well, and has paid for the blocks `used` since it had `means0`. */
  ghost predicate WellAfter(q: Process, means0: Means, used: set<nat>)
    reads q, q.k, q.k.heap, q.k.heap.entries, q.slots
  {
    var well := q.Valid() && Paid(means0, q.sp, used, q.Held());
    well
  }

  /** peachos_malloc for one node, in process `q`. */
  method AllocateNode(q: Process) returns (ptr: Word, ghost used: set<nat>)
    requires q.Valid()
    modifies q.k`ram, q.k.heap`runs, q.k.heap.entries, q.slots
    ensures q.Valid() && (ptr != 0 <==> old(q.Held()).blocks > 0 && old(q.Held()).slots > 0)
    ensures |used| == if ptr == 0 then 0 else 1
    ensures Paid(old(q.Held()), q.sp, used, q.Held())
  {
    ghost var im, i, block, cleared := q.Now(), 0, 0, q.k.ram;
    OnePage(q.k.Table(), NODE_SIZE);
    ptr, i, block, cleared := q.Malloc(NODE_SIZE);
    MallocGrows(im, q.sp, NODE_SIZE, q.Now(), ptr, i, block, cleared);
    used := if ptr == 0 then {} else {block};
  }

  /** A new node of process `q` for the word at `token`; NULL when no block or no slot is free. */
  method NewNode(q: Process, token: seq<Byte>, ghost word: seq<Byte>) returns (node: CommandArgument?, ghost used: set<nat>)
    requires q.Valid() && 0 in token && CString(token) == word
    modifies q.k`ram, q.k.heap`runs, q.k.heap.entries, q.slots
    ensures q.Valid() && (node != null <==> old(q.Held()).blocks > 0 && old(q.Held()).slots > 0)
    ensures |used| == if node == null then 0 else 1
    ensures Paid(old(q.Held()), q.sp, used, q.Held())
    ensures node != null ==> fresh(node) && node.next == null && HoldsWord(node, word)
  {
    var ptr;
    ptr, used := AllocateNode(q);
    node := null;
    if ptr != 0 {
      node := FilledNode(token, word);
    }
  }

  /** strncpy(node->argument, token, sizeof(node->argument)), and no next node. */
  method FilledNode(token: seq<Byte>, ghost word: seq<Byte>) returns (node: CommandArgument)
    requires 0 in token && CString(token) == word
    ensures fresh(node) && node.next == null && HoldsWord(node, word)
  {
    var argument := new Byte[ARGUMENT_SIZE];
    CStringHasNoNul(token);
    Strncpy(argument, token, ARGUMENT_SIZE);
    StrncpyReadsBack(argument[..], Cut(word, ARGUMENT_SIZE - 1));
    node := new CommandArgument(argument[..]);
  }

  /** The tokenizer's buffer is no part of the heap. */
  ghost predicate Apart(tk: Tokenizer, q: Process)
    reads tk, q, q.k, q.k.heap
  {
    tk.buf as object != q.k.heap.entries
  }

  lemma StrncpyReadsBack(dest: seq<Byte>, s: seq<Byte>)
    requires NoNul(s) && s + [0] <= dest
    ensures 0 in dest && CString(dest) == s
  {
    assert dest[|s|] == (s + [0])[|s|] == 0;
    assert forall i :: 0 <= i < |s| ==> dest[i] == (s + [0])[i];
    CStringPrefix(dest, |s|);
  }

  /** Word `m` is the one at `token`, and the cursor stands before the words after it; or there is
      no word `m` and no token. */
  ghost predicate AtWord(tk: Tokenizer, m: nat, token: int)
    reads tk, tk.buf
  {
    WordAt(tk.text, m, tk.buf[..], token, tk.sp)
  }

  ghost predicate WordAt(text: seq<Byte>, m: nat, buf: seq<Byte>, token: int, sp: int) {
    var spans := Spans(text, [SPACE], 0);
    var wordAt := if m < |spans| then
      && 0 <= token <= |buf| && sp >= 0
      && 0 in buf[token..] && CString(buf[token..]) == Words(text, [SPACE])[m]
      && sp <= |text| && Spans(text, [SPACE], sp) == spans[m + 1..]
    else token == -1;
    wordAt
  }

  /** strtok(scommand, " ") */
  method FirstToken(tk: Tokenizer, scommand: array<Byte>) returns (token: int)
    requires 0 in scommand[..]
    modifies tk, scommand
    ensures tk.Valid() && tk.buf == scommand && tk.text == CString(old(scommand[..])) && AtWord(tk, 0, token)
  {
    token := tk.First(scommand, [SPACE]);
    Terminated(old(scommand[..]));
    if Spans(tk.text, [SPACE], 0) != [] {
      FoundText(tk.text, [SPACE], 0, old(scommand[..]), token, tk.sp, tk.buf[..]);
    }
  }

  /** strtok(NULL, " ") */
  method NextToken(tk: Tokenizer, ghost m: nat, ghost token: int) returns (next: int)
    requires tk.Valid() && m < |Spans(tk.text, [SPACE], 0)| && AtWord(tk, m, token)
    modifies tk`sp, tk.buf
    ensures tk.Valid() && AtWord(tk, m + 1, next)
  {
    next := tk.Next([SPACE]);
    ghost var spans := Spans(tk.text, [SPACE], 0);
    if spans[m + 1..] != [] {
      assert spans[m + 1..][0] == spans[m + 1];
      FoundText(tk.text, [SPACE], old(tk.sp), old(tk.buf[..]), next, tk.sp, tk.buf[..]);
    }
  }

  /** strncpy(scommand, command, sizeof(scommand)) */
  method CopyLine(command: seq<Byte>) returns (scommand: array<Byte>)
    requires 0 in command || COMMAND_SIZE - 1 <= |command|
    ensures fresh(scommand) && 0 in scommand[..]
    ensures CString(scommand[..]) == Cut(CString(command), COMMAND_SIZE - 1)
  {
    scommand := new Byte[COMMAND_SIZE];
    Strncpy(scommand, command, COMMAND_SIZE);
    CStringHasNoNul(command);
    StrncpyReadsBack(scommand[..], Cut(CString(command), COMMAND_SIZE - 1));
  }

  /** peachos_parse_command in process `q`: a list of the words of the command line, as far as there are a
      free block and a free slot of the process for each node. Nodes take those, and nothing else changes
      but the process's own tables and free memory. */
  method ParseCommand(q: Process, command: seq<Byte>, max: nat)
    returns (root: CommandArgument?, ghost nodes: seq<CommandArgument>, ghost used: set<nat>)
    requires q.Valid() && (0 in command || COMMAND_SIZE - 1 <= |command|)
    modifies q.k`ram, q.k.heap`runs, q.k.heap.entries, q.slots
    ensures q.Valid() && IsList(root, nodes) && NewNodes(nodes, CommandWords(command))
    ensures |nodes| == |used| == if max > COMMAND_SIZE then 0
                                 else Affordable(|CommandWords(command)|, old(q.k.FreeCount()), old(q.FreeSlots()))
    ensures Paid(old(q.Held()), q.sp, used, q.Held())
  {
    root, nodes, used := null, [], {};
    ghost var words := CommandWords(command);
    NothingPaid(q.Held(), q.sp);
    if max > COMMAND_SIZE {
      return;
    }
    var scommand := CopyLine(command);
    var tk := new Tokenizer();
    var token := FirstToken(tk, scommand);
    if token == -1 {
      return;
    }
    root, nodes, used := ParseTokens(q, tk, token, words);
  }

  /** The nodes of peachos_parse_command, from the first token on. */
  method ParseTokens(q: Process, tk: Tokenizer, first: nat, ghost words: seq<seq<Byte>>)
    returns (root: CommandArgument?, ghost nodes: seq<CommandArgument>, ghost used: set<nat>)
    requires q.Valid() && words == Words(tk.text, [SPACE]) && words != []
    requires tk.Valid() && AtWord(tk, 0, first) && Apart(tk, q)
    modifies tk`sp, tk.buf, q.k`ram, q.k.heap`runs, q.k.heap.entries, q.slots
    ensures q.Valid() && IsList(root, nodes) && NewNodes(nodes, words)
    ensures |nodes| == |used| == Affordable(|words|, old(q.Held()).blocks, old(q.Held()).slots)
    ensures Paid(old(q.Held()), q.sp, used, q.Held())
  {
    ghost var means0 := q.Held();
    nodes := [];
    root, used := NewNode(q, tk.buf[first..], words[0]);
    if root == null {
      return;
    }
    var token := NextToken(tk, 0, first);
    nodes, used := ParseRest(q, tk, root, token, words, means0, used);
  }

  /** The loop of peachos_parse_command: a node for each further word, linked behind the last. */
  method ParseRest(q: Process, tk: Tokenizer, root: CommandArgument, second: int, ghost words: seq<seq<Byte>>,
                   ghost means0: Means, ghost used0: set<nat>)
    returns (ghost nodes: seq<CommandArgument>, ghost used: set<nat>)
    requires words == Words(tk.text, [SPACE]) && words != [] && root.next == null && HoldsWord(root, words[0])
    requires tk.Valid() && AtWord(tk, 1, second) && Apart(tk, q) && |used0| == 1 && WellAfter(q, means0, used0)
    modifies tk`sp, tk.buf, root, q.k`ram, q.k.heap`runs, q.k.heap.entries, q.slots
    ensures WellAfter(q, means0, used) && IsList(root, nodes) && NewNodes(nodes, words)
    ensures |nodes| == |used| == Affordable(|words|, means0.blocks, means0.slots)
  {
    nodes, used := [root], used0;
    assert LinkOk(nodes, 0);
    var token, current: CommandArgument := second, root;
    while token != -1
      invariant WellAfter(q, means0, used) && |used| == |nodes|
      invariant SoFar(root, nodes, current, words) && (current == root || fresh(current))
      invariant tk.Valid() && AtWord(tk, |nodes|, token)
      decreases |words| - |nodes|
    {
      var node;
      node, nodes, used, token := AddWord(q, tk, root, nodes, current, token, words, means0, used);
      if node == null {
        break;
      }
      current := node;
    }
    AllMade(means0, q.sp, used, q.Held(), |words|);
  }

  /** A list is complete when there are no more words, or no more blocks or slots. */
  lemma AllMade(means0: Means, sp: Space, used: set<nat>, means: Means, n: nat)
    requires Paid(means0, sp, used, means) && |used| <= n && (|used| == n || means.blocks == 0 || means.slots == 0)
    ensures |used| == Affordable(n, means0.blocks, means0.slots)
  {
  }

  /** The nodes are distinct and hold the first words. */
  ghost predicate NewNodes(nodes: seq<CommandArgument>, words: seq<seq<Byte>>) {
    var newNodes :=
      && |nodes| <= |words|
      && (forall i, j :: 0 <= i < j < |nodes| ==> nodes[i] != nodes[j])
      && (forall i :: 0 <= i < |nodes| ==> HoldsWord(nodes[i], words[i]));
    newNodes
  }

  /** The first words are in the list, and `current` is its last node. */
  ghost predicate SoFar(root: CommandArgument?, nodes: seq<CommandArgument>, current: CommandArgument?, words: seq<seq<Byte>>)
    reads nodes
  {
    var soFar :=
      && nodes != [] && current == nodes[|nodes| - 1]
      && IsList(root, nodes) && NewNodes(nodes, words);
    soFar
  }

  /** One turn of the loop: a node for the word at `token`, linked behind the last node, and the next token. */
  method AddWord(q: Process, tk: Tokenizer, root: CommandArgument, ghost nodes: seq<CommandArgument>, current: CommandArgument, token: int,
                 ghost words: seq<seq<Byte>>, ghost means0: Means, ghost used: set<nat>)
    returns (node: CommandArgument?, ghost longer: seq<CommandArgument>, ghost more: set<nat>, next: int)
    requires WellAfter(q, means0, used) && |used| == |nodes| && SoFar(root, nodes, current, words)
    requires words == Words(tk.text, [SPACE]) && Apart(tk, q) && tk.Valid() && token != -1 && AtWord(tk, |nodes|, token)
    modifies tk`sp, tk.buf, current, q.k`ram, q.k.heap`runs, q.k.heap.entries, q.slots
    ensures WellAfter(q, means0, more) && |more| == |longer| && tk.Valid()
    ensures if node == null then longer == nodes && SoFar(root, nodes, current, words) && (q.Held().blocks == 0 || q.Held().slots == 0)
            else fresh(node) && |longer| == |nodes| + 1 && SoFar(root, longer, node, words) && AtWord(tk, |longer|, next)
  {
    longer, next := nodes, token;
    node, more := AddNode(q, tk, root, nodes, current, token, words, means0, used);
    if node != null {
      longer, next := LinkAndNext(q, tk, root, nodes, current, token, words, node, means0, more);
    }
  }

  method LinkAndNext(ghost q: Process, tk: Tokenizer, root: CommandArgument, ghost nodes: seq<CommandArgument>, current: CommandArgument,
                     ghost token: int, ghost words: seq<seq<Byte>>, node: CommandArgument, ghost means0: Means, ghost used: set<nat>)
    returns (ghost longer: seq<CommandArgument>, next: int)
    requires WellAfter(q, means0, used) && Apart(tk, q)
    requires SoFar(root, nodes, current, words) && |nodes| < |words| == |Spans(tk.text, [SPACE], 0)|
    requires node !in nodes && node.next == null && HoldsWord(node, words[|nodes|])
    requires tk.Valid() && AtWord(tk, |nodes|, token)
    modifies tk`sp, tk.buf, current
    ensures |longer| == |nodes| + 1 && SoFar(root, longer, node, words) && tk.Valid() && AtWord(tk, |longer|, next)
    ensures WellAfter(q, means0, used)
  {
    longer := LinkNode(root, nodes, current, node, words);
    next := NextToken(tk, |nodes|, token);
    assert unchanged(q, q.k, q.k.heap, q.k.heap.entries, q.slots);
  }

  /** A node for the word at `token`; the list stays as it was. */
  method AddNode(q: Process, tk: Tokenizer, ghost root: CommandArgument, ghost nodes: seq<CommandArgument>, ghost current: CommandArgument,
                 token: int, ghost words: seq<seq<Byte>>, ghost means0: Means, ghost used: set<nat>)
    returns (node: CommandArgument?, ghost more: set<nat>)
    requires WellAfter(q, means0, used) && |used| == |nodes| && SoFar(root, nodes, current, words)
    requires tk.Valid() && token != -1 && AtWord(tk, |nodes|, token) && Apart(tk, q) && words == Words(tk.text, [SPACE])
    modifies q.k`ram, q.k.heap`runs, q.k.heap.entries, q.slots
    ensures WellAfter(q, means0, more) && tk.Valid() && AtWord(tk, |nodes|, token) && SoFar(root, nodes, current, words)
    ensures if node == null then |more| == |nodes| && (q.Held().blocks == 0 || q.Held().slots == 0)
            else |more| == |nodes| + 1 && fresh(node) && node.next == null && |nodes| < |words| && HoldsWord(node, words[|nodes|])
  {
    assert |nodes| < |words| && token >= 0 && 0 in tk.buf[token..] && CString(tk.buf[token..]) == words[|nodes|];
    node, more := NextNode(q, tk.buf[token..], words[|nodes|], means0, used);
    assert unchanged(tk, tk.buf) && forall i :: 0 <= i < |nodes| ==> unchanged(nodes[i]);
  }

  method NextNode(q: Process, token: seq<Byte>, ghost word: seq<Byte>, ghost means0: Means, ghost used: set<nat>)
    returns (node: CommandArgument?, ghost more: set<nat>)
    requires WellAfter(q, means0, used) && 0 in token && CString(token) == word
    modifies q.k`ram, q.k.heap`runs, q.k.heap.entries, q.slots
    ensures WellAfter(q, means0, more)
    ensures if node == null then |more| == |used| && (q.Held().blocks == 0 || q.Held().slots == 0)
            else |more| == |used| + 1 && fresh(node) && node.next == null && HoldsWord(node, word)
  {
    ghost var means1, one := q.Held(), {};
    node, one := NewNode(q, token, word);
    PaidBoth(means0, q.sp, used, means1, one, q.Held());
    more := used + one;
  }

  /** The node comes behind the last one. */
  method LinkNode(root: CommandArgument?, ghost nodes: seq<CommandArgument>, current: CommandArgument, node: CommandArgument,
                  ghost words: seq<seq<Byte>>)
    returns (ghost longer: seq<CommandArgument>)
    requires SoFar(root, nodes, current, words) && |nodes| < |words|
    requires node !in nodes && node.next == null && HoldsWord(node, words[|nodes|])
    modifies current
    ensures |longer| == |nodes| + 1 && SoFar(root, longer, node, words)
  {
    current.next := node;
    longer := nodes + [node];
    forall i: nat | i < |longer| ensures LinkOk(longer, i) {
      assert i + 1 < |nodes| ==> old(LinkOk(nodes, i));
    }
  }
}
