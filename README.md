# bithou node tools: the host-independent core

`bithou/nodetools.py` is a set of Houdini helpers. They walk a node graph and
find the node references and file references that a node's parameters hold.
Nearly all of it queries live objects through the `hou` module. This project
models the three pieces that do not depend on the host and proves what they
do:

- **`is_valid_file`** (module `ValidFile`, `valid_file.dfy`). A parameter value
  names a file when it is non-empty and `file_pattern`,
  `^[\w/\.\-\@\:\?\$\#]*\.\w+$`, matches it.
  - The pattern is given its meaning as a language, `FilePatternMatches`. It
    includes Python's rule that `$` also matches just before one final
    newline, so `"a.txt\n"` is accepted.
  - `IsValidFile` decides the pattern without a regex. A name is valid when
    every character is a word character or one of `/ . - @ : ? $ #`, apart
    from one final newline, which `$` admits. What follows the last `.`,
    before that newline, must be a non-empty run of word characters.
  - The lemmas prove that the two agree for every value. They also prove the
    character set, the extension rule and the rejection of names without an
    extension.
- **`expr_node_pattern.findall`** (module `ExprNodePattern`,
  `expr_node_pattern.dfy`). This is the scan inside `find_parm_references`.
  It pulls every `"..."` group of `"([\S\\.]+)"` out of an expression such as
  `ch("../geo1/tx")`.
  - A match is a `Span`: the positions of its opening and closing quote.
  - `IsFindAll` states Python's `re.findall` rule declaratively. Matches are
    leftmost. Each is as long as the greedy `+` makes it, so it ends at the
    last quote of its whitespace-free run. Matches do not overlap, and no
    match is missed.
  - `Scan` computes the spans. The lemmas prove that `Scan` meets `IsFindAll`
    and that nothing else does.
  - `FindAll` returns the captures. Each capture is non-empty, contains no
    whitespace, and sits between two `"` in the expression.
- **`has_expression`** (module `Keyframes`, `keyframes.dfy`). A parameter is
  given by its keyframes. The method keeps the source's loop with its early
  returns. It is proved to answer true exactly when there is one keyframe and
  that keyframe does not use slopes. A keyframe kind without `isSlopeUsed`
  counts as not using them.

`ReChars` (`re_chars.dfy`) holds the character classes of Python's `re`
used by both patterns, plus the backwards search for the last `.`. `Wrappers` holds `Option`.
Python's `None` for a value is `Option.None`.

## Model

| member | source | states |
|---|---|---|
| `ValidFile.IsValidFile` | bithou/nodetools.py:270-271 | None and the empty string are rejected before the pattern is consulted |
| `ValidFile.IsValidFileMatchesPattern` | bithou/nodetools.py:262-272 | for every value, `is_valid_file` is true exactly when the value is a non-empty string that `file_pattern` matches under `re.match`, including the final newline `$` admits |
| `ValidFile.MatchesBodyIff` | bithou/nodetools.py:6 | `[\w/...]*\.\w+` matches a string exactly when all its characters are allowed and the text after its last `.` is a non-empty run of word characters; the leading class adds nothing |
| `ValidFile.ValidFileChars` | bithou/nodetools.py:6 | every character of an accepted name is `\w` or one of `/ . - @ : ? $ #`, except one final newline |
| `ValidFile.ValidFileExtension` | bithou/nodetools.py:6 | an accepted name contains a `.`; the text after its last `.`, before the optional final newline, is non-empty and all word characters |
| `ValidFile.NoExtensionRejected` | bithou/nodetools.py:6 | a name with no `.`, or one that ends in `.`, is rejected |
| `ValidFile.AcceptedExample` | bithou/nodetools.py:262-272 | `$HIP/box.bgeo` is accepted |
| `ValidFile.TrailingNewlineAccepted` | bithou/nodetools.py:6 | `a.txt` followed by a newline is accepted, because of `$` |
| `ValidFile.RejectedExamples` | bithou/nodetools.py:262-272 | a name with two final newlines, with a space, ending in `.`, without `.`, the empty string and None are rejected |
| `ExprNodePattern.LongestMatchAt` | bithou/nodetools.py:5 | one attempt of the pattern at a position: when it succeeds, the closing quote lies past the opening quote plus one character and inside the string |
| `ExprNodePattern.BackOff` | bithou/nodetools.py:5 | the backtracking of the greedy `+`: a quote it returns leaves a non-empty group and lies before the end of the run |
| `ExprNodePattern.Scan` | bithou/nodetools.py:170 | findall's left-to-right scan: every span lies within the string, at or after the start position, with its opening quote before its closing quote; the lemma rows below carry the rest |
| `ExprNodePattern.RunEnd` | bithou/nodetools.py:5 | the greedy `+` first takes the whole run of `[\S\\.]` characters: every character before the returned end is in the class, and the one at the end is not |
| `ExprNodePattern.BackOffFindsLastQuote` | bithou/nodetools.py:5 | backing off from the end of the run stops at the last `"` that leaves a non-empty group, or finds none |
| `ExprNodePattern.LongestMatchAtIsLongest` | bithou/nodetools.py:5 | the attempt at one position fails exactly when no match starts there; otherwise it returns a match that no longer match at that position beats |
| `ExprNodePattern.ScanLongest` | bithou/nodetools.py:170 | every span the scan reports is a match at or after the start position, and the longest one from its opening quote |
| `ExprNodePattern.ScanOrdered` | bithou/nodetools.py:170 | the reported spans come left to right and their `"..."` do not overlap |
| `ExprNodePattern.ScanMissesNothing` | bithou/nodetools.py:170 | no match starts at a position that the reported spans leave uncovered |
| `ExprNodePattern.ScanIsFindAll` | bithou/nodetools.py:170 | `Scan` meets the declarative `findall` statement: longest matches, in order, disjoint, none missed |
| `ExprNodePattern.ScanIsTheOnlyFindAll` | bithou/nodetools.py:170 | any span sequence meeting that statement is `Scan`'s; the answer of `findall` is unique |
| `ExprNodePattern.FindAll` | bithou/nodetools.py:170 | the spans behind the captures meet the `findall` statement (longest, in order, disjoint, none missed); there is one capture per span, and it is exactly the text strictly between that span's opening and closing quote; each capture is non-empty, has no whitespace, and has a `"` just before and just after it |
| `ExprNodePattern.CapturesAreQuoted` | bithou/nodetools.py:5 | the text inside a match is non-empty, free of whitespace and quoted on both sides |
| `ExprNodePattern.SeparatedQuotesExample` | bithou/nodetools.py:5 | `"a" "b"` yields `a` then `b` |
| `ExprNodePattern.AdjacentQuotesExample` | bithou/nodetools.py:5 | `"a""b"` yields the single capture `a""b` |
| `ExprNodePattern.ChannelReferenceExample` | bithou/nodetools.py:170 | `ch("../tx")` yields `../tx` |
| `Keyframes.UsesSlope` | bithou/nodetools.py:133-136 | a keyframe uses slopes exactly when `isSlopeUsed()` answers True; a keyframe without that method counts as not using them |
| `Keyframes.HasExpression` | bithou/nodetools.py:118-139 | true exactly when there is one keyframe and it does not use slopes; a missing `isSlopeUsed` counts as no slope; zero keyframes, or two or more, give false |

## Left out

- `ReChars.IsWordChar`: `\w` is taken as ASCII `[A-Za-z0-9_]`. In a Python 3 str pattern, `\w` also accepts Unicode letters and digits, so the model rejects some non-ASCII names that the source accepts. `\s` is modelled exactly: it is the set `str.isspace()` accepts.
- `ValidFile.IsValidFile`: a value is either None or a string. A truthy value that is not a string makes `re.match` raise `TypeError` in the source; that case is not modelled.
- `NodeTraverse` and `traverse` (bithou/nodetools.py:9-70, 222-259): they build the graph from `hou` calls, keep the process-wide `_traversed` cache, and `traverse` is a generator. None of this exists without the host.
- `get_output_nodes`, `get_child_output`, `is_editable`, `get_parents` (bithou/nodetools.py:73-115, 196-219): thin wrappers over host node accessors.
- `find_parm_references`, except its `findall` scan, and `find_node_references` (bithou/nodetools.py:142-193): resolving paths through `node.node`, `node.parm` and `getReferencedParm` is host evaluation. The `if expr:` guard needs no model, because `FindAll` of the empty string is empty.
- `find_file_references` (bithou/nodetools.py:275-313): it walks host nodes and evaluates parameters. Only the `is_valid_file` test it applies is modelled.
- `Keyframes.HasExpression`: `parm.keyframes()` is a host call. The parameter is given by its keyframe list, and a keyframe by what `isSlopeUsed()` answers.
