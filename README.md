# Dodo-Ini-Manager: the FileIni document model in Dafny

`FileIni` (src/Classes/FileIni.php) edits an INI file while keeping its order.
Every operation that changes the file directly (`set`, `rm`, `before`, `after`,
`setKey`, `writeInKey`, `rewriteInKey`, `rmKey`, `beforeKey`, `afterKey`) does
three things:

1. It reads the file with `parse_ini_file` into a PHP array: sections in file order, each an array of keys in file order.
2. It edits that array.
3. It writes it back with `updateFile`, which calls `createContentFromBody`.

`get`, `getKey`, `hasNext`, `getNext`, `keyHasNext` and `getNextKey` only read.
`rewrite`, `rewriteKey`, `moveKey` and `rmInKey` write only by calling the
operations above. `rewrite`, `rewriteKey` and `moveKey` call several of them, so
the file is read and written several times in one call.

The model keeps the parsed array as the object's state. It proves what each
operation does to that state and what text is written.

- `PhpArray.dfy` (module `PhpArray`): the PHP array as an ordered sequence of
  `(key, value)` pairs.
  - `Assign` is `$m[$k] = $v`: overwrite in place, or append.
  - `Unset` is `unset($m[$k])`. `Lookup` is `$m[$k]`, with `None` for PHP's null.
  - `MovedBefore` is the reordering done by `before`/`after`.
  - `Placed` is the same reordering, as one pass of the reordering loop.
- `IniDocument.dfy` (module `IniDocument`):
  - A document is a sequence of `(name, section)` and a section is a sequence of `(key, value)`.
  - `WellFormed`: names are unique at both levels, as PHP array keys are.
  - One specification function per operation, then lemmas saying what each one does.
  - The reading operations, as written (`GetNextAsWritten`, `GetNextKeyAsWritten`) and as documented (`NextSection`, `NextKey`).
- `IniSerializer.dfy` (module `IniSerializer`):
  - `Serialize` is the text `createContentFromBody` produces.
  - `ParseDoc` is a reader for exactly that format.
  - Reading back what was written gives the body again (`ParseSerialize`).
- `FileIni.dfy` (module `DodoIniManager`): the class `FileIni`.
  - Fields: `body`, the parsed array; `content`, the text last written.
  - One method per operation, with the source's loops and their invariants.
  - Each mutating method ensures that the new `body` is the specification function applied to the old one, that `content == Serialize(body)`, and that `Valid()` still holds.

The model follows the code wherever the code and its doc comments disagree:

- `after(s, p)` moves the pivot `p` to just before `s`, and `s` stays where it is.
- `before(s, p)` with a missing `p`, or with `s == p`, deletes `s`. With `s` missing, `s` appears, empty, just before `p`.
- `after(s, p)` with a missing `s`, or with `s == p`, deletes `p`. With `p` missing, `p` appears, empty, just before `s`.
- `beforeKey(s, e, b)` with a missing `b`, or with `e == b`, deletes `e`. With `e` missing, `e` is inserted with `""` just before `b`.
- `afterKey(s, e, a)` moves `a`. With a missing `e`, or with `e == a`, it deletes `a`. With `a` missing, `a` is inserted with `""` just before `e`.
- `rewriteKey(s, e, ne)` with `e` missing, in a present section `s`, sets `ne` to `""`: it creates `ne`, or empties an existing `ne` in place (`KeyRenamedAssigns`). `moveKey(s, e, ns)` with `e` missing and `ns` present sets `e` in `ns` to `""` in the same way: it creates `e` there, or empties an existing `e` in place.
- An absent section `s` leaves the body unchanged for `setKey` (both forms), `writeInKey` (so also `rewriteInKey` and `rmInKey`), `rmKey`, `beforeKey` and `afterKey`. `rm` of a missing section and `rmKey` of a missing key change nothing either, as PHP's `unset` does.
- `getNext`, `getNextKey` and `writeInKey` behave as listed under "## Findings".

The `$k = $element` assignment in `writeInKey`, `rewriteInKey` and
`elementIndex` is modelled exactly. The test is PHP's truth value of the key
name (`Truthy`: neither `""` nor `"0"`), so falsy names need no precondition.

## Model

| member | source | states |
|---|---|---|
| PhpArray.IndexOf | src/Classes/FileIni.php:784-793 | -1 exactly when the key is absent; otherwise an index holding the key with no earlier occurrence |
| PhpArray.Lookup | src/Classes/FileIni.php:155-158 | `$m[$k]` is a value exactly when k is a key, and the pair (k, value) is in the array |
| PhpArray.Assign | src/Classes/FileIni.php:193-200 | afterwards k reads v. An existing key keeps its index and every other entry is unchanged. A new key is appended last. Uniqueness is kept |
| PhpArray.Unset | src/Classes/FileIni.php:223-227 | an absent key changes nothing. Otherwise exactly one entry goes, the ones before it keep their index, the ones after move up by one, and k is no longer a key |
| PhpArray.UnsetOthers | src/Classes/FileIni.php:223-227 | removing k leaves the lookup of every other key unchanged |
| PhpArray.AssignAssign | src/Classes/FileIni.php:195-198 | assigning twice to the same key equals assigning the last value, so `set`'s `array()` followed by the array is just the array |
| PhpArray.InsertBefore | src/Classes/FileIni.php:246-249 | with p present, the new entry takes p's index and everything from p on moves one place right; with p absent, nothing changes |
| PhpArray.MovedBeforeSpec | src/Classes/FileIni.php:237-256 | for distinct present x and p, x ends immediately before p with value vx, and taking x out again gives the old array with x taken out. The size, the multiset of keys and uniqueness are kept |
| PhpArray.MovedBeforeKeys | src/Classes/FileIni.php:237-256 | the move creates no key: x is present afterwards only if p was present and distinct |
| PhpArray.PlacedIsMovedBefore | src/Classes/FileIni.php:242-254 | the one-pass loop (skip x, emit x then p at p, copy the rest) equals removing x and re-inserting it just before p |
| PhpArray.PlacedStep | src/Classes/FileIni.php:243-253 | each loop step is the source's three branches: skip x; at p, assign x then p; otherwise assign the entry. Each is written as PHP assignments to the array built so far |
| PhpArray.SuccessorAfterMove | src/Classes/FileIni.php:237-256 | after x is moved before p, the entry following x is p, with p's old value |
| IniDocument.OperationsWellFormed | src/Classes/FileIni.php:193-740 | every section and key operation keeps names unique at both levels |
| IniDocument.SetSpec | src/Classes/FileIni.php:193-200 | `set` on a present section replaces it in place, and every other section keeps its index and contents |
| IniDocument.RenamedSpec | src/Classes/FileIni.php:210-214 | `rewrite(s, ns)` with ns new: the body with s removed, then ns last with what s held. s is gone and the body stays well formed |
| IniDocument.RenamedIsLast | src/Classes/FileIni.php:210-214 | after `rewrite`, the new section is present and `hasNext` is false for it |
| IniDocument.SectionMovedBeforeSpec | src/Classes/FileIni.php:237-256 | `before(s, p)`: s immediately precedes p, keeping its contents. With s taken out the body equals the old one with s taken out. Same multiset of names |
| IniDocument.SectionMovedAfterSpec | src/Classes/FileIni.php:266-285 | `after(s, p)`: p moves, to immediately before s, keeping its contents. With p taken out the body equals the old one with p taken out. Same multiset of names |
| IniDocument.SectionMovedBeforeEdges | src/Classes/FileIni.php:237-285 | before(s, p): a missing p or s == p drops s, and a missing s appears, empty, just before p. after(s, p): a missing s or s == p drops p, and a missing p appears, empty, just before s |
| IniDocument.KeyMovedEdges | src/Classes/FileIni.php:673-740 | in a present section: beforeKey with a missing pivot or e == b deletes e, and a missing e is inserted with "" just before b. afterKey with a missing e or e == a deletes a, and a missing a is inserted with "" just before e |
| IniDocument.KeyAddedSpec | src/Classes/FileIni.php:394-408 | `setKey(s, e)` on a present section: e reads "", keeping its position if it existed and appended otherwise. No other section changes |
| IniDocument.KeyOperationsOnAbsentSection | src/Classes/FileIni.php:394-740 | on an absent section, setKey (both forms), writeInKey, rmKey, beforeKey and afterKey leave the body unchanged |
| IniDocument.MergeSpec | src/Classes/FileIni.php:400-404 | assigning the pairs in order overwrites the section's existing keys in place and appends the new keys in the array's order |
| IniDocument.MergeStep | src/Classes/FileIni.php:401-403 | one pass of the inner loop assigns the next pair into the section already merged with the earlier pairs |
| IniDocument.KeysMergedSpec | src/Classes/FileIni.php:394-408 | `setKey(s, array)`: only section s changes, and it becomes the overwritten keys followed by the fresh ones. An absent s is a no-op |
| IniDocument.KeyWrittenSpec | src/Classes/FileIni.php:439-451 | `writeInKey(s, e, c)`: when s has a key and e is truthy, section s becomes the section with e assigned c (e reads c, at its position or appended), and nothing else changes. Otherwise the body is unchanged |
| IniDocument.AssignInIdempotent | src/Classes/FileIni.php:443-446 | the inner loop's repeated identical write equals one write |
| IniDocument.KeyUnsetSpec | src/Classes/FileIni.php:591-595 | `rmKey(s, e)`: section s loses exactly e, and every other key and section keeps its value and position order |
| IniDocument.KeyRenamedSpec | src/Classes/FileIni.php:482-487 | `rewriteKey(s, e, ne)` with ne new: e is gone, and ne is the last key with e's value (or "" for a falsy ne, which writeInKey skips). No other section changes |
| IniDocument.KeyRenamedAssigns | src/Classes/FileIni.php:482-487 | `rewriteKey(s, e, ne)` for any ne in a present section: only section s changes, and it becomes the section without e with ne assigned e's value ("" for a falsy ne, or when e is missing). An existing ne other than e is overwritten in place |
| IniDocument.KeyRenamedUnaffected | src/Classes/FileIni.php:482-487 | for a truthy new name, rewriteKey gives the same result under the corrected writeInKey |
| IniDocument.KeyMovedSpec | src/Classes/FileIni.php:658-662 | `moveKey(s, e, ns)`: e leaves s and is assigned into ns with its value. With ns == s, e goes to the end of s. With ns absent, e is lost. Sections other than s and ns are unchanged |
| IniDocument.KeyMovedBeforeSpec | src/Classes/FileIni.php:673-701 | `beforeKey(s, e, b)`: e immediately precedes b with its value. With e taken out the section equals the old one with e taken out. Other sections are unchanged |
| IniDocument.KeyMovedAfterSpec | src/Classes/FileIni.php:712-740 | `afterKey(s, e, a)`: a moves to immediately before e, with its value; the rest of the section keeps its order. Other sections are unchanged |
| IniDocument.GetNextAsWritten | src/Classes/FileIni.php:314-327 | `getNext` returns a section exactly when `hasNext` holds |
| IniDocument.GetNextReturnsItself | src/Classes/FileIni.php:319-324 | whenever `hasNext(s)` holds, `getNext(s)` returns section s itself |
| IniDocument.GetNextCounterexample | src/Classes/FileIni.php:319-324 | on sections ruby, js, `getNext("ruby")` returns ruby's section where the following one is js's |
| IniDocument.NextSection | src/Classes/FileIni.php:307-313 | the documented `getNext` returns a section exactly when `hasNext` holds |
| IniDocument.NextSectionAfterBefore | src/Classes/FileIni.php:237-256 | after `before(s, p)`, the section following s is p, with p's contents |
| IniDocument.NextSectionAfterAfter | src/Classes/FileIni.php:266-285 | after `after(s, p)`, the section following p is s, with s's contents |
| IniDocument.GetNextKeyAsWritten | src/Classes/FileIni.php:630-647 | `getNextKey` returns a value exactly when `keyHasNext` holds |
| IniDocument.GetNextKeyCounterexample | src/Classes/FileIni.php:635-642 | on keys ide, framework, orm, `getNextKey("bash", "framework")` returns framework's own value where orm's follows |
| IniDocument.GetNextKeyRightOnFirstKey | src/Classes/FileIni.php:635-642 | for a truthy first key, the as-written and the documented getNextKey agree |
| IniDocument.NextKey | src/Classes/FileIni.php:622-629 | the documented `getNextKey` returns a value exactly when `keyHasNext` holds |
| IniDocument.NextKeyAfterBeforeKey | src/Classes/FileIni.php:673-701 | after `beforeKey(s, e, b)`, the key following e is b, with b's value |
| IniDocument.KeyWrittenCounterexample | src/Classes/FileIni.php:444-445 | in a section with only ide, `writeInKey("bash", "orm", "apt-get")` creates orm |
| IniDocument.KeyOverwrittenSpec | src/Classes/FileIni.php:439-451 | the corrected writeInKey never adds or removes a section or key. For an existing e, section s becomes the section with e assigned c, and nothing else changes; a missing e changes nothing |
| IniDocument.KeyWrittenAgreesOnExistingKey | src/Classes/FileIni.php:442-446 | for an existing truthy key, the as-written and the corrected writeInKey agree |
| IniSerializer.KeyLinesConcat | src/Classes/FileIni.php:835-842 | the key lines of a concatenation are the concatenation of the key lines |
| IniSerializer.SerializeConcat | src/Classes/FileIni.php:832-844 | the text of a concatenation of bodies is the concatenation of the texts |
| IniSerializer.SerializeStart | src/Classes/FileIni.php:830-846 | the text is empty exactly for an empty body, and otherwise begins with `[` |
| IniSerializer.PartialSectionStep | src/Classes/FileIni.php:835-842 | writing key j adds its line, and the blank line exactly when j is the last key |
| IniSerializer.ContentStep | src/Classes/FileIni.php:836-841 | with unique keys, the source's `$k == $lastKey` test is the test "this is the last position" |
| IniSerializer.ParseSerialize | src/Classes/FileIni.php:830-846 | reading the written text back yields the body written, for names, keys and values free of the format's delimiters |
| IniSerializer.SerializeInjective | src/Classes/FileIni.php:830-846 | two such bodies that give the same text are equal |
| DodoIniManager.PlaceBefore | src/Classes/FileIni.php:241-254 | the reordering loop of before/after/beforeKey/afterKey computes MovedBefore |
| DodoIniManager.ReplaceValue | src/Classes/FileIni.php:693-699 | the rebuilding loop of beforeKey/afterKey is the array with the entry named k replaced in place, or unchanged when k is absent |
| DodoIniManager.FileIni.CreateContentFromBody | src/Classes/FileIni.php:830-846 | the nested loop writes exactly `Serialize(b)`: per section a header, a line per key, and a blank line after the last key only |
| DodoIniManager.FileIni.UpdateFile | src/Classes/FileIni.php:755-758 | the file holds the text of the new body, and the object's body is that body |
| DodoIniManager.FileIni.SectionIndex | src/Classes/FileIni.php:784-793 | the 0-based position of s, or -1 when absent |
| DodoIniManager.FileIni.ElementIndex | src/Classes/FileIni.php:806-819 | 0 when section s has a key and e is truthy, otherwise -1 |
| DodoIniManager.FileIni.Get | src/Classes/FileIni.php:155-158 | section s, or None for null |
| DodoIniManager.FileIni.Set | src/Classes/FileIni.php:193-200 | the new body is the old one with s assigned a (null and empty both give an empty section), and the file holds its text |
| DodoIniManager.FileIni.Rm | src/Classes/FileIni.php:223-227 | the new body is the old one with s unset |
| DodoIniManager.FileIni.Rewrite | src/Classes/FileIni.php:210-214 | the new body is get, rm, set applied in turn |
| DodoIniManager.FileIni.Before | src/Classes/FileIni.php:237-256 | the new body is the old one with s moved immediately before p |
| DodoIniManager.FileIni.After | src/Classes/FileIni.php:266-285 | the new body is the old one with p moved immediately before s |
| DodoIniManager.FileIni.HasNext | src/Classes/FileIni.php:294-305 | true exactly when s is present and not the last section |
| DodoIniManager.FileIni.GetNext | src/Classes/FileIni.php:314-327 | None when hasNext is false, otherwise the section at sectionIndex(s) |
| DodoIniManager.FileIni.GetKey | src/Classes/FileIni.php:355-358 | the value of e in section s, or None for null |
| DodoIniManager.FileIni.SetKey | src/Classes/FileIni.php:394-399 | the new body is the old one with e set to "" in an existing section s |
| DodoIniManager.FileIni.SetKeyArray | src/Classes/FileIni.php:394-404 | the new body is the old one with every pair assigned in order into an existing section s |
| DodoIniManager.FileIni.WriteInKey | src/Classes/FileIni.php:439-451 | the new body is KeyWritten of the old one: e set to c when s has a key and e is truthy |
| DodoIniManager.FileIni.RewriteInKey | src/Classes/FileIni.php:518-530 | the same result as writeInKey |
| DodoIniManager.FileIni.RmInKey | src/Classes/FileIni.php:560-562 | writeInKey with the empty value: the key stays, emptied |
| DodoIniManager.FileIni.RmKey | src/Classes/FileIni.php:591-595 | the new body is the old one with e unset in section s |
| DodoIniManager.FileIni.RewriteKey | src/Classes/FileIni.php:482-487 | the new body is getKey, rmKey, setKey, writeInKey applied in turn |
| DodoIniManager.FileIni.KeyHasNext | src/Classes/FileIni.php:605-620 | true exactly when e is a key of s and not its last key |
| DodoIniManager.FileIni.GetNextKey | src/Classes/FileIni.php:630-647 | None when keyHasNext is false, otherwise the value at position elementIndex(s, e) + 1 |
| DodoIniManager.FileIni.MoveKey | src/Classes/FileIni.php:658-662 | the new body is getKey, rmKey, then setKey of the pair into ns |
| DodoIniManager.FileIni.BeforeKey | src/Classes/FileIni.php:673-701 | the new body is the old one with e moved immediately before b within section s |
| DodoIniManager.FileIni.AfterKey | src/Classes/FileIni.php:712-740 | the new body is the old one with a moved immediately before e within section s |

## Left out

- The file lifecycle is not modelled: the constructor's path handling, `setPath`, `getPath`, `rename`, `copy`, `move` and `createFile`. They only call the filesystem. The constructor here takes the parsed body and the text as parameters.
- `parse_ini_file` is not modelled. Its result is the field `body`. `ParseDoc` reads only the format `createContentFromBody` writes, not general INI: no comments, no unquoted or typed values, no escapes.
- The model assumes that `parse_ini_file` reads the written text back as the body that was written: `UpdateFile` sets `body` together with `content`. `rewrite`, `rewriteKey` and `moveKey` rely on this between their steps. `IniSerializer.ParseSerialize` shows it only for the reader `ParseDoc` and for bodies free of the format's delimiters, not for PHP's parser.
- `updateFileWithContent` becomes the assignment to `content`. File I/O, and the file changing between two operations, are not modelled.
- PHP's loose comparison is not modelled. Key comparisons are exact string equality, so numeric-like names such as "1" and "01", which `==` equates, are distinct here. PHP's conversion of numeric-string array keys to integers is also not modelled.
- `set`'s `$array != null` is not modelled separately: an empty array and null are both read as "no contents", and both give the same empty section.
- Values are strings only. Nested arrays, and `setKey`'s `is_string`/`is_array` dispatch on other PHP types, are not modelled. The two accepted forms are the two methods `SetKey` and `SetKeyArray`.
- PHP's null for a missing section or value is `None` where it is returned (`Get`, `GetKey`). Where it is stored, it is an empty section or the empty string, which both print the same as null.
- `false` returned by `getNext`/`getNextKey` is `None`.
- PHP's diagnostics on the edge paths are not modelled. Reading a missing section or key through `get`/`getKey` (src/Classes/FileIni.php:157, 357) raises a notice, and `beforeKey`/`afterKey` on a missing section loop over null, which raises a warning. The edge behaviours above assume PHP's default handler, which reports these and carries on. Under a handler that turns them into exceptions, such as PHPUnit's, the call stops before `updateFile` and the file is unchanged.
- DodoIniManager.FileIni.Set: requires the array's keys to be unique, which holds for every PHP array.
- IniSerializer.ParseSerialize: states the round trip only for names without `]` or newline, and keys without space or newline that do not start with `[`. Values must be without `"` or newline. Other text is written as the source writes it but is not shown to read back.
- `createContentFromBody`'s branch for a non-array top-level value is not modelled: a body here holds only sections.

## Findings

| source | as written | input that shows it | evidently intended | confidence | as-written member | corrected member |
|---|---|---|---|---|---|---|
| src/Classes/FileIni.php:319-324 | `getNext(s)` returns the section at position `sectionIndex(s)`, which is s itself | sections ruby then js: `getNext("ruby")` gives ruby's section | the section after s, at `sectionIndex(s) + 1`, as the doc comment at src/Classes/FileIni.php:307-313 says | not executed; tests/FileIniTest.php:155-161 asserts the as-written result | IniDocument.GetNextCounterexample | IniDocument.NextSectionAfterBefore |
| src/Classes/FileIni.php:812 | `elementIndex` tests `$k = $element`, an assignment, so it answers 0 for any truthy e. `getNextKey` (src/Classes/FileIni.php:635-642) then returns the second key's value | section bash with ide, framework, orm: `getNextKey("bash", "framework")` gives "file system" | the value of the key after e, "apt-get" | not executed; right when e is the first key, the case tests/FileIniTest.php:228-229 covers | IniDocument.GetNextKeyCounterexample | IniDocument.NextKeyAfterBeforeKey |
| src/Classes/FileIni.php:444 | `writeInKey` (and `rewriteInKey`, src/Classes/FileIni.php:523) tests `$k = $element`, so it writes whenever the section has a key and e is truthy, creating e when missing | section bash with only ide: `writeInKey("bash", "orm", "apt-get")` adds orm | `$k == $element`: only an existing key is written | not executed | IniDocument.KeyWrittenCounterexample | IniDocument.KeyOverwrittenSpec |
