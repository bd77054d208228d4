# Verification of the interface library

A Dafny model of the self-contained algorithms of the client's interface and tool code, with
proofs of what they promise. Each source file has modules of its own; what the source changes
in place is a class here, with methods that change the same fields.

- **XML dialect** (`XmlText`, `XmlItem`, `XmlShape`, `XmlFile`, `XmlBuilder`, `XmlRoundTrip`,
  `XmlReload`, `XmlSpaced`, `XmlTokens`, `XmlLayout`):
  tokenizer, tag reader, item tree with parent, first-child, previous and next pointers, tree
  builder and pruning printer. A ghost map from items to their names, properties and children
  (an arena) says which tree the pointers stand for; every operation on pointers is a change
  of that map.
- **Template merge** (`XmlProps`, `TemplateMerge`): several items become one.
- **Wildcard matcher** (`Wildcard`): the greedy matcher against the language of patterns.
- **Package tree** (`PckTree`): linked nodes against a set of file paths and one of directory
  paths.
- **Rich texts** (`Decimal`, `RichItem`, `RichText`, `RichFormat`, `RichRoundTrip`, `RichFilter`,
  `ChatEscape`): inline items written as tags, whole texts, lengths, filters, chat escaping.
- **Tree control** (`TreeForest`, `TreeCtrl`): traversal, search, collapse and range selection
  on an abstract ordered forest; a handle is the path of child numbers to an item.
- **Vertical text** (`TextLines`, `TextHeights`, `Scroll`, `VerticalText`): greedy line filling,
  scrolling, and the walk over the lines when drawing.
- **Splitting** (`Split`) and **nine-slice frames** (`Frame`, `Arithmetic`).

`XmlSpaced`, `XmlTokens`, `XmlLayout`, `RichFormat` and `TextHeights` tell what is read, written
and laid out once more from characters and numbers alone, without the functions that do it.
`Letters` says which texts differ in letter case only, `Occurrences` holds facts about texts
inside longer texts, `Wrappers` the optional values, and `Repeats` says when the elements of a
sequence differ.

## What does not hold

Some promises fail for some inputs; the exact condition is proved for each.

- Loading dereferences a null parent exactly when, while nothing is open, there is a tag named
  `/` after some tag that does not end in `/>`, or an unnamed tag before any such tag
  (`XmlBuilder.LoadFailsIffMisnamed`; `<>` is one, `XmlBuilder.UnnamedTagCrashes`).
- The wildcard matcher accepts a text when a part of it that ends at a space matches; it decides
  the language for a text exactly when the text has no space (`WildcardMatcher.ExactIffNoSpace`).
- An underline color is lost by a round trip without underline settings exactly when it is not
  the item's color (`RichRoundTrip.UnderLineColorLost`), and both filters switch the underlines
  of coordinates off (`RichFilter.EmotionFilterKeepsCoord`).
- Lines can be higher than allowed, exactly when some character alone is or no height at all is
  allowed (`TextLines.NoLineTooHigh`). The last line is drawn exactly when the last height that was
  measured is positive: a text that ends in an item with an empty name loses its last line
  (`TextLines.LinesPartition`, `TextLines.NotDrawn`).
- After a layout the first line stays in the text, whatever happens, exactly when the page size
  is not negative (`Scrolling.FirstLineStays`, with the input `Scrolling.NegativePage`).
- The wait of 500 ms after the first step of a pressed button is kept only for ticks from 500 to
  549 ms later; an earlier tick scrolls at once, because the unsigned difference of times wraps
  around (`Scrolling.FirstDelay`).
- Range selection leaves what is displayed between its ends selected exactly when the first end is
  visible and the second one was visible or is not revealed before the first
  (`TreeCtrls.RangedIsBetween`). Otherwise, and for a null second end, everything from the visible
  end down to the last displayed item is selected (`TreeCtrls.RangedToTheEnd`, with the inputs
  `TreeCtrls.HiddenFirstEnd` and `TreeCtrls.HiddenSecondEnd`).
- The length scanner differs from the decoder by one for every item that cannot be read, and by
  what lies in the tags behind unknown types, which it passes (`RichRoundTrip.ScannerAgrees`).
- Splitting undoes joining exactly for the lists in which no delimiter appears too early
  (`Splitting.SplitOfJoin`).

## Model

| member | source | states |
|---|---|---|
| XmlItems.XmlItem.Init | client/AUInterface/AXMLFile.cpp:22-87 | reading a tag sets the name and the properties that the tag language gives, and changes nothing when the text is rejected |
| XmlItems.XmlItem.GetItemText | client/AUInterface/AXMLFile.cpp:89-104 | the printed tag is the tag text of the name and the properties in order |
| XmlRoundTrip.TagRoundTrip | client/AUInterface/AXMLFile.cpp:22-104 | reading a printed tag gives back its name and all properties, for names and keys that can be written and backslash-well-formed values |
| XmlSpaced.AttributeExactly | client/AUInterface/AXMLFile.cpp:48-85 | an attribute is read exactly when, from a position on, there are spaces, a key, its '=', and a value between quotes with backslash escapes; what else stands between these parts is passed over |
| XmlSpaced.BlanksIgnored | client/AUInterface/AXMLFile.cpp:22-87 | any number of spaces, tabs, carriage returns and line feeds before the name, before each key, around each '=' and before the end leave name and properties as they are |
| XmlSpaced.SpacedTextRead | client/AUInterface/AXMLFile.cpp:22-87 | a whole text is read so, with padding around it, any text without '=' after a key's blank or behind the last property, any text without a quote behind '=', and tabs and line breaks in values read as spaces |
| XmlSpaced.PaddedTag | client/AUInterface/AXMLFile.cpp:22-33 | without the characters up to the space at both ends, a text is rejected exactly when it neither begins with '<' nor ends with '>' |
| XmlSpaced.PrintedTag | client/AUInterface/AXMLFile.cpp:89-104 | a printed tag has one space before each key and no other gap |
| XmlItems.XmlItem.SetValue | client/AUInterface/AXMLFile.cpp:142-154 | the first property with the key, in any case, gets the value; else a property is added at the end |
| XmlProps.SetThenGet | client/AUInterface/AXMLFile.cpp:124-154 | after setting, the key has the new value and every other key the value it had |
| XmlProps.SameKeyIs | client/AUInterface/AXMLFile.cpp:124-154 | two keys are the same exactly when each character is equal or the small and capital form of one letter, by character codes |
| XmlProps.SetPropIs | client/AUInterface/AXMLFile.cpp:142-154 | setting replaces the value of the first property with the key and keeps how the key is written, or adds one property at the end when none has it |
| XmlItems.XmlItem.InsertItem | client/AUInterface/AXMLFile.cpp:193-224 | the pointers afterwards stand for the child list with the item put behind the given one, or last; all lists stay doubly linked and agree with the parent pointers |
| XmlItems.XmlItem.RemoveItem | client/AUInterface/AXMLFile.cpp:226-235 | the pointers afterwards stand for the child list without the item; the item's own stale neighbour links do no harm |
| XmlFiles.XmlFile.GetNextXMLItemText | client/AUInterface/AXMLFile.cpp:427-456 | the next tag, ended by the first '>' outside quotes with backslash escapes, and a position that grows with every tag |
| XmlTokens.TagEndExactly | client/AUInterface/AXMLFile.cpp:427-456 | a tag ends behind the first '>' that no backslash takes and that has an even number of quotes before it, counting those that no backslash takes |
| XmlTokens.NextTokenExactly | client/AUInterface/AXMLFile.cpp:427-456 | the next token runs from the next '<' to that end; there is none when there is no '<' or no end |
| XmlRoundTrip.TokensItems | client/AUInterface/AXMLFile.cpp:365-393 | the tokenizer finds exactly the tags that the printer wrote, in order, and then goes on behind them |
| XmlFiles.XmlFile.LoadFromText | client/AUInterface/AXMLFile.cpp:291-333 | for every text that loads, the pointer structure afterwards is well linked and stands for the parsed tree |
| XmlFiles.XmlFile.AddTag | client/AUInterface/AXMLFile.cpp:305-328 | one step of the loader keeps the parent cursor on a path to the root and the previous-item cursor at the parent's last child, and does what the pure builder does |
| XmlShapes.PushCursor | client/AUInterface/AXMLFile.cpp:305-328 | opening an item under the innermost open one keeps the open path and the finished trees |
| XmlShapes.PopCursor | client/AUInterface/AXMLFile.cpp:305-328 | closing the innermost open item makes its tree the last child of its parent and keeps the rest of the path |
| XmlShapes.CloseCursor | client/AUInterface/AXMLFile.cpp:305-333 | whatever is still open at the end, the root stands for the tree of all frames |
| XmlBuilder.CrashIffStray | client/AUInterface/AXMLFile.cpp:305-328 | the loader follows a null parent exactly when some tag closes while nothing is open |
| XmlBuilder.CrashIffMisnamed | client/AUInterface/AXMLFile.cpp:305-328 | under an unnamed root, that is exactly when a tag met with nothing open is named '/' after some tag that does not end in "/>", or unnamed before any such tag |
| XmlBuilder.LoadFailsIffMisnamed | client/AUInterface/AXMLFile.cpp:291-333 | the same for whole texts: exactly the texts with such a tag do not load |
| XmlBuilder.NamedTextLoads | client/AUInterface/AXMLFile.cpp:291-333 | every text, balanced or not, loads when no tag is unnamed or named '/' |
| XmlBuilder.UnnamedTagCrashes | client/AUInterface/AXMLFile.cpp:305-328 | the text "<>" does not load |
| XmlBuilder.DocumentOrder | client/AUInterface/AXMLFile.cpp:305-328 | in document order the built items are the tags that close nothing: none lost, repeated or moved |
| XmlBuilder.LoadKeepsOrder | client/AUInterface/AXMLFile.cpp:291-333 | the same for whole texts |
| XmlFiles.XmlFile.BuildItemText | client/AUInterface/AXMLFile.cpp:365-393 | printing the pointer structure gives the printed form of the tree that it stands for |
| XmlFiles.XmlFile.GetText | client/AUInterface/AXMLFile.cpp:351-363 | the text of the whole document; the structure is unchanged |
| XmlLayout.PrintedDocument | client/AUInterface/AXMLFile.cpp:351-393 | the text is a byte order mark and one line for each tag of the items that are kept, indented by a tab for each level and ended by carriage return and line feed; top items always have an end tag, others only when they have children |
| XmlRoundTrip.BuildItems | client/AUInterface/AXMLFile.cpp:291-393 | from the printed tags the builder makes exactly the items that the printer keeps, whatever is open before |
| XmlRoundTrip.RoundTrip | client/AUInterface/AXMLFile.cpp:291-393 | loading a printed document gives back its items without those that have no properties and no surviving child |
| XmlRoundTrip.Reprint | client/AUInterface/AXMLFile.cpp:351-393 | printing the reloaded document gives the same text |
| XmlReload.TagValues | client/AUInterface/AXMLFile.cpp:22-87 | every value that is read from any tag can be written again |
| XmlReload.LoadedWritable | client/AUInterface/AXMLFile.cpp:291-393 | a document that was loaded from any text can be written exactly when the names and keys of its tags can |
| XmlReload.Reload | client/AUInterface/AXMLFile.cpp:291-393 | printing and loading such a document gives its items without those that the printer drops |
| XmlFiles.XmlFile.ReleaseChilds | client/AUInterface/AXMLFile.cpp:411-425 | everything below an item is gone, nothing else changes |
| XmlFiles.XmlFile.Release | client/AUInterface/AXMLFile.cpp:400-409 | ends with a root without children that keeps its name; items outside the document are untouched |
| XmlFiles.XmlFile.ReleaseItem | client/AUInterface/AXMLFile.cpp:411-425 | the item and everything below it is gone, nothing else changes, and the recursion ends |
| XmlShapes.UniqueTree | client/AUInterface/AXMLFile.cpp:193-235 | well linked items stand for one tree only |
| XmlShapes.TreeOf | client/AUInterface/AXMLFile.cpp:193-235 | items without cycles stand for a tree |
| TemplateMerge.MergeItems | client/AUInterface/AUIObjectTemplateManager.cpp:113-141 | the loop leaves one item with merged properties and the children of all items in order, and fails exactly when there is no item |
| TemplateMerge.MoveChildren | client/AUInterface/AUIObjectTemplateManager.cpp:130-137 | all children of one item follow those of the other, in order, and the emptied item keeps none |
| TemplateMerge.MergedTree | client/AUInterface/AUIObjectTemplateManager.cpp:113-141 | as a tree, the result is the merge of the input trees: every child subtree is kept unchanged |
| XmlProps.MergedValue | client/AUInterface/AUIObjectTemplateManager.cpp:124-128 | a key has the value of the last item that defines it, for every list: the value that its last property with the key gives, or its first one when it is the item that the merge began with |
| XmlProps.MergedPlainValue | client/AUInterface/AUIObjectTemplateManager.cpp:124-128 | when that item has no two properties with one key, the value that it gives |
| XmlProps.MergedUndefined | client/AUInterface/AUIObjectTemplateManager.cpp:124-128 | a key that no item defines stays undefined |
| XmlProps.MergedKeys | client/AUInterface/AUIObjectTemplateManager.cpp:124-128 | the merged keys are the keys of all items, each once, in the order of their first occurrence |
| WildcardMatcher.StringWithWildcard.MatchPureSegment | client/AUInterface/AStringWithWildcard.cpp:78-93 | a segment without stars fits at a position exactly when every character is equal or '?' |
| WildcardMatcher.StringWithWildcard.IsMatchSegment | client/AUInterface/AStringWithWildcard.cpp:50-76 | taking the leftmost place for a segment keeps the answer for the rest of the pattern |
| WildcardMatcher.StringWithWildcard.IsMatch | client/AUInterface/AStringWithWildcard.cpp:23-48 | true exactly when a prefix that ends at a space or at the end is in the language of the pattern |
| WildcardMatcher.IsMatch | client/AUInterface/AStringWithWildcard.cpp:95-105 | the same; when case does not matter, a letter of the pattern stands for both of its cases |
| WildcardMatcher.SameUpper | client/AUInterface/AStringWithWildcard.cpp:95-105 | two texts are the same in upper case exactly when they are equal up to the two cases of a letter, by character codes |
| WildcardMatcher.SameAnswer | client/AUInterface/AStringWithWildcard.cpp:95-105 | without case the answer is one for all texts and patterns that differ in this way only |
| WildcardLanguage.LeftmostSegment | client/AUInterface/AStringWithWildcard.cpp:50-76 | the exchange argument: after '*' the leftmost fit of a segment loses no match |
| WildcardLanguage.Earlier | client/AUInterface/AStringWithWildcard.cpp:50-76 | a pattern that begins with a star or is empty, matched later in a text, can be matched from any earlier place |
| WildcardLanguage.PaddedPrefix | client/AUInterface/AStringWithWildcard.cpp:23-48 | what the space sentinels around pattern and text mean |
| WildcardMatcher.NeverRejects | client/AUInterface/AStringWithWildcard.cpp:23-48 | a text that matches is never rejected |
| WildcardMatcher.ExactIffNoSpace | client/AUInterface/AStringWithWildcard.cpp:23-48 | the matcher decides the language for a text exactly when it has no space |
| PckTrees.PckTreeNode.FindChild | client/AFileDialog/ItemInfo.cpp:61-73 | a child with the name, or none exactly when there is none |
| PckTrees.PckTreeNode.AddChild | client/AFileDialog/ItemInfo.cpp:75-83 | one new last child with that name and kind, whatever the name; the structure stays a tree when no child had the name |
| PckTrees.PckTreeNode.FreeAllChilds | client/AFileDialog/ItemInfo.cpp:31-43 | exactly the nodes whose path continues that of the node are gone |
| PckTrees.PckTreeNode.UniqueAddChild | client/AFileDialog/ItemInfo.cpp:85-103 | the child exists with the asked kind; the sets of files and directories change by its path, and by what was below it when it becomes a file |
| PckTrees.PckTreeNode.AddFullName | client/AFileDialog/ItemInfo.cpp:105-145 | the node with the path is there, and the sets of files and directories are those that adding the parts one by one gives; no node gets an empty name or one with a separator |
| PckTrees.SeparatorsRead | client/AFileDialog/ItemInfo.cpp:105-145 | however many backslashes and slashes, mixed, stand before, between and behind the names of a path, the parts that are added are these names; with separators behind them all are directories |
| PckTrees.FileAddedAtRoot | client/AFileDialog/ItemInfo.cpp:105-145 | the files become the old ones without proper prefixes and extensions of the path, plus the path; the directories lose what was below it and gain its proper prefixes |
| PckTrees.DirsAddedAtRoot | client/AFileDialog/ItemInfo.cpp:105-145 | a path with a separator at its end adds directories only |
| PckTrees.SiblingNames | client/AFileDialog/ItemInfo.cpp:85-103 | siblings have different names |
| PckTrees.RootIsNoFile | client/AFileDialog/ItemInfo.cpp:105-145 | the root is neither among the files nor among the directories |
| PckTrees.PckTreeNode.GetPathName | client/AFileDialog/ItemInfo.cpp:45-59 | the names from below the root to the node with '\' between them; the root gives its own name |
| PckTrees.JoinedIs | client/AFileDialog/ItemInfo.cpp:45-59 | a path is written with exactly one backslash between its names and none before the first |
| PckTrees.PathNameRoundTrip | client/AFileDialog/ItemInfo.cpp:45-145 | the name that a node of such a tree gives is read as the path of that node |
| PckTrees.FileNameKept | client/AFileDialog/ItemInfo.cpp:45-145 | adding the name that a file gives changes neither files nor directories |
| PckTrees.NewRoot | client/AFileDialog/ItemInfo.cpp:18-24 | a new root is a tree with good names |
| Decimal.ScanFormat | client/AUInterface/AUICommon.cpp:1161-1204 | scanning a printed number gives the number and stops behind it, whatever other character follows |
| Decimal.FormatIs | client/AUInterface/AUICommon.cpp:1161-1204 | a number is printed as a minus sign if it is negative and its digits, the first of which is 0 for 0 only |
| Decimal.ScanIs | client/AUInterface/AUICommon.cpp:1350-1534 | the scanned number at any position of any text: blanks, an optional sign, and all digits that follow; no number exactly when there are no digits |
| RichItems.EditBoxItem.Serialize | client/AUInterface/AUICommon.cpp:1161-1204 | the written form of an item of each kind |
| RichFormat.WrittenForm | client/AUInterface/AUICommon.cpp:1161-1204 | the text of each kind of item with its type number, brackets and fields written out, colors as signed 32-bit numbers |
| RichItems.ParseTags | client/AUInterface/AUICommon.cpp:1320-1347 | the loop finds the next texts in angle brackets, or fails and leaves the position |
| RichFormat.TagsExactly | client/AUInterface/AUICommon.cpp:1320-1347 | the texts that are found are exactly those between the next '<' and the next '>' each, whatever lies before them |
| RichItems.EditBoxItem.UnserializeContent | client/AUInterface/AUICommon.cpp:1350-1534 | the fields of a new item as the tags say, or no progress |
| RichItems.EditBoxItem.Unserialize | client/AUInterface/AUICommon.cpp:1270-1317 | a new item with the decoded fields and the position behind it; for a bad type no progress, for bad contents only the type is passed |
| RichFormat.ItemRead | client/AUInterface/AUICommon.cpp:1270-1534 | in any text, an item of one of the seven types with all its texts is read as these texts say, field by field, and reading goes on behind them |
| RichFormat.ItemNotRead | client/AUInterface/AUICommon.cpp:1270-1347 | without a type below 262 nothing is passed; behind a type from 7 on, or one whose texts are not all there, reading goes on right behind the type |
| RichItems.ItemRoundTrip | client/AUInterface/AUICommon.cpp:1161-1534 | reading a written item consumes exactly its text, whatever follows, and gives its written fields |
| RichItems.ContentReadBack | client/AUInterface/AUICommon.cpp:1350-1534 | tags that hold the written fields are decoded to these fields, for every kind of item |
| RichTexts.EditBoxItemsSet.AppendItem | client/AUInterface/AUICommon.cpp:1136-1150 | the overload that these lines call, which the class declaration in AUICommon.h defines: the first code from the next one on, going round, that is not in use; fails exactly when all codes are in use, and the search ends |
| RichFormat.ItemCodes | client/AUInterface/AUICommon.cpp:1136-1150 | the codes are the 1024 characters from U+E000 to U+E3FF, and the first follows the last, as the class declaration in AUICommon.h defines |
| RichTexts.MarshalEditBoxText | client/AUInterface/AUICommon.cpp:1574-1600 | every known item code is followed by its item's text, everything else is copied |
| RichFormat.MarshalledParts | client/AUInterface/AUICommon.cpp:1574-1600 | each character is written where it stands, and behind a character from U+E000 to U+E3FF that the set knows, its item's text |
| RichTexts.UnmarshalEditBoxText | client/AUInterface/AUICommon.cpp:1615-1727 | the result shows, with the set, exactly the decoded text with the wanted items adjusted, as long as there is room; old items stay, codes are new and differ, and in a new set they are the first ones in order |
| RichTexts.KeepItem | client/AUInterface/AUICommon.cpp:1645-1663 | a wanted item is put under a new code and adjusted; the other items are as they were |
| RichFormat.AdjustedIs | client/AUInterface/AUICommon.cpp:1653-1663 | field by field: the message index always, the underline when it is told, name and color for inventory items only, nothing else |
| RichRoundTrip.ElemsEncoded | client/AUInterface/AUICommon.cpp:1574-1727 | decoding a marshalled text gives the characters and items that the text shows |
| RichRoundTrip.MarshalRoundTrip | client/AUInterface/AUICommon.cpp:1574-1727 | marshalling and unmarshalling give the same text up to the codes of its items, each written as before except for the underline that the call sets |
| RichRoundTrip.UnderLineColorLost | client/AUInterface/AUICommon.cpp:1350-1368 | without underline settings a coordinate is written as before exactly when its underline color is that of the item |
| RichRoundTrip.GetItemRenderedLength | client/AUInterface/AUICommon.cpp:1206-1268 | the length of one marshalled item and the place behind it |
| RichRoundTrip.GetUnserializedLength | client/AUInterface/AUICommon.cpp:1536-1559 | the loop adds up characters other than line feeds and item lengths |
| RichRoundTrip.ScannerAgrees | client/AUInterface/AUICommon.cpp:1206-1559 | for every text the length is that of the decoded text, plus one for every item that cannot be decoded, less what the decoder makes of the tags that the scanner passes behind unknown types |
| RichRoundTrip.PassedPlain | client/AUInterface/AUICommon.cpp:1206-1559 | a passed tag without item codes is decoded to its characters, line feeds not counted |
| RichRoundTrip.NothingPassed | client/AUInterface/AUICommon.cpp:1206-1559 | without unknown types no tag is passed |
| RichRoundTrip.MarshalledLength | client/AUInterface/AUICommon.cpp:1206-1572 | for a marshalled text it is the rendered length of the original: names of coordinates and tasks, no line feeds, one for all else |
| RichFormat.LengthIs | client/AUInterface/AUICommon.cpp:1536-1572 | coordinates and tasks have the length of their names, other items and characters 1, a line feed 0 |
| RichFilter.EmotionRoundTrip | client/AUInterface/AUICommon.cpp:1729-1743 | scanning a printed emotion gives back set and index; a set below 0 or from 32 on and an index below 0 come back as 0 |
| RichFilter.EmotionPartly | client/AUInterface/AUICommon.cpp:1736-1743 | for every text: what is missing counts as 0, and the index is read only right behind a colon that follows the set |
| RichFilter.FilterEmotionSet | client/AUInterface/AUICommon.cpp:1745-1773 | the text written from the decoded elements with the emotions' sets replaced; a text without items stays |
| RichFilter.EmotionFiltered | client/AUInterface/AUICommon.cpp:1745-1773 | an emotion "set:k" is written "n:k" by the filter to set n |
| RichFilter.FilterCoordColor | client/AUInterface/AUICommon.cpp:1775-1797 | the text written from the decoded elements with the coordinates' colors replaced; a text without items stays |
| RichFilter.LastFilterWins | client/AUInterface/AUICommon.cpp:1745-1797 | for every text: filtering twice with the same kind of filter is filtering with the last one |
| RichFilter.FiltersCommute | client/AUInterface/AUICommon.cpp:1745-1797 | for every text: the two kinds of filters can be exchanged |
| RichFilter.FilterTouches | client/AUInterface/AUICommon.cpp:1745-1797 | what a filter does to each element of any text: characters, names and other items' fields stay, emotions keep their index, coordinates lose their underline; items beyond the number of codes are dropped, a text without items stays |
| RichFilter.EmotionFilterKeepsCoord | client/AUInterface/AUICommon.cpp:1745-1773 | the emotion filter writes a coordinate as before exactly when it has no underline and no underline color of its own |
| RichFilter.KeptClean | client/AUInterface/AUICommon.cpp:1320-1534 | whatever text is decoded, its items can be written again |
| ChatEscape.ConvertChatString | client/AUInterface/AUICommon.cpp:1022-1050 | the buffer holds the escaped text and a terminator, and is unchanged behind it |
| ChatEscape.ConvertChatStringBounded | client/AUInterface/AUICommon.cpp:1052-1082 | the buffer holds the escape of a prefix and a terminator within its length; it stops early only when at most one character of room is left |
| ChatEscape.EscapeRoundTrip | client/AUInterface/AUICommon.cpp:1022-1050 | unescaping gives back every text |
| ChatEscape.EscapePaired | client/AUInterface/AUICommon.cpp:1022-1050 | a text is the escape of its unescaped form exactly when every '^' in it starts a pair and every '&' ends one |
| ChatEscape.BoundedPrefix | client/AUInterface/AUICommon.cpp:1052-1082 | the bounded form cuts no pair and unescapes to the part of the text that fitted |
| TreeForest.NextInOrder | client/AudioAssist/TreeCtrlEx.cpp:566-597 | from each item the traversal goes to its successor in preorder, from the last to null |
| TreeForest.OrderComplete | client/AudioAssist/TreeCtrlEx.cpp:566-597 | the traversal meets every item of the forest, each once |
| TreeForest.OrderSorted | client/AudioAssist/TreeCtrlEx.cpp:566-597 | each item is met before those below it and before its later siblings with all that is below these |
| TreeForest.VisibleComplete | client/AudioAssist/TreeCtrlEx.cpp:664-711 | the displayed items are those all of whose ancestors are expanded, each once |
| TreeForest.VisibleSorted | client/AudioAssist/TreeCtrlEx.cpp:664-711 | the displayed items are in that order too |
| TreeCtrls.TreeCtrlEx.GetNextItem | client/AudioAssist/TreeCtrlEx.cpp:566-597 | the climbing loop gives the successor in preorder |
| TreeCtrls.TreeCtrlEx.ItemFromData | client/AudioAssist/TreeCtrlEx.cpp:845-883 | the first item with the data from the start on, null exactly when there is none |
| TreeCtrls.TreeCtrlEx.OnItemExpanding | client/AudioAssist/TreeCtrlEx.cpp:736-784 | collapsing deselects exactly the selected items below the node, expanding deselects nothing |
| TreeCtrls.TreeCtrlEx.NextBelow | client/AudioAssist/TreeCtrlEx.cpp:745-777 | the walk below a node goes on in preorder and stops where the node's subtree ends |
| TreeCtrls.CollapsedShown | client/AudioAssist/TreeCtrlEx.cpp:736-784 | collapsing a node hides exactly the items below it |
| TreeCtrls.CollapseKeepsVisible | client/AudioAssist/TreeCtrlEx.cpp:736-784 | when only visible items are selected, they are so after collapsing |
| TreeCtrls.TreeCtrlEx.SelectItems | client/AudioAssist/TreeCtrlEx.cpp:664-711 | the second end is revealed and the displayed items of the range end up selected, the others not; nothing hidden is selected if nothing was; fails exactly when neither end is visible |
| TreeCtrls.CaretMoves | client/AudioAssist/TreeCtrlEx.cpp:679-682 | a new caret item is selected, unless it is null, and the old one no more; no other item changes |
| TreeCtrls.VisibleEnds | client/AudioAssist/TreeCtrlEx.cpp:664-711 | with two visible ends nothing is revealed, and the range is the items between them in either order |
| TreeCtrls.RangedIsBetween | client/AudioAssist/TreeCtrlEx.cpp:664-711 | with a second end, the range is the items between the ends exactly when the first end is visible and the second was visible or is not revealed before the first |
| TreeCtrls.RangedToTheEnd | client/AudioAssist/TreeCtrlEx.cpp:664-711 | otherwise, and for a null second end, the range is everything from the visible end on |
| TreeCtrls.HiddenFirstEnd | client/AudioAssist/TreeCtrlEx.cpp:664-711 | a forest, a hidden first end and a visible second one: an item below both is selected |
| TreeCtrls.HiddenSecondEnd | client/AudioAssist/TreeCtrlEx.cpp:664-711 | a forest and a second end that is revealed before the first: it is not selected, an item below both is |
| TreeForest.RevealedVisible | client/AudioAssist/TreeCtrlEx.cpp:679-682 | revealing an item hides nothing and displays the item |
| TreeCtrls.TreeCtrlEx.ClearSelection | client/AudioAssist/TreeCtrlEx.cpp:717-730 | every visible item loses its selection and highlight, no other item changes |
| TreeCtrls.TreeCtrlEx.GetSelectedCount | client/AudioAssist/TreeCtrlEx.cpp:551-560 | the number of visible selected items |
| TreeCtrls.TreeCtrlEx.GetFirstSelectedItem | client/AudioAssist/TreeCtrlEx.cpp:603-610 | the first visible selected item, or null when there is none |
| TreeCtrls.TreeCtrlEx.ListSelected | client/AudioAssist/TreeCtrlEx.cpp:370-382 | the rebuilt list is that of the visible selected items |
| TreeCtrls.ChosenMembers | client/AudioAssist/TreeCtrlEx.cpp:370-382 | the list has the visible selected items and no others, each once, in display order |
| VerticalTexts.VerticalText.CalcTextLines | client/AUInterface/AUIVerticalText.cpp:870-950 | the loop fills lines as the layout says, counts the lines to draw, and goes to the first one |
| VerticalTexts.VerticalText.SetText | client/AUInterface/AUIVerticalText.cpp:841-848 | a new text is laid out anew and shown from its first line |
| VerticalTexts.VerticalText.SetFont | client/AUInterface/AUIVerticalText.cpp:530-544 | so is the text with a new font |
| VerticalTexts.VerticalText.MeasureName | client/AUInterface/AUIVerticalText.cpp:912-915 | the height of a name is the sum of its characters' heights |
| TextHeights.LinesOfText | client/AUInterface/AUIVerticalText.cpp:901-949 | told by characters: a line starts behind every carriage return, else only where the heights of the line's characters and the next one exceed the limit, and then always; line feeds and items other than coordinates have no height, a coordinate that of its name |
| TextHeights.TotalOfText | client/AUInterface/AUIVerticalText.cpp:901-949 | as many lines are drawn as were begun after the first one, and one more when the last drawn character has a height |
| TextHeights.NothingAdded | client/AUInterface/AUIVerticalText.cpp:901-949 | without its line feeds and the items other than coordinates a text has as many lines, and as many are drawn |
| TextLines.LinesPartition | client/AUInterface/AUIVerticalText.cpp:901-949 | the lines cut the text up, a new one starts behind every break, and there is one more than are drawn unless the last height is positive |
| TextLines.NoLineTooHigh | client/AUInterface/AUIVerticalText.cpp:901-949 | no line is higher than allowed exactly when no single character is and the allowed height is not negative |
| TextLines.FewestLines | client/AUInterface/AUIVerticalText.cpp:901-949 | no cut into lines that fit and start behind every break has fewer lines, for every text |
| TextLines.Optimal | client/AUInterface/AUIVerticalText.cpp:901-949 | with positive heights that fit, the drawn lines are such a cut and the shortest one |
| TextLines.Ahead | client/AUInterface/AUIVerticalText.cpp:901-949 | at every character the greedy layout is ahead of any other: fewer lines, or as many with no more in the last |
| TextLines.NotDrawn | client/AUInterface/AUIVerticalText.cpp:947-949 | a character followed by something without height is not drawn at all |
| VerticalTexts.VerticalText.Render | client/AUInterface/AUIVerticalText.cpp:597-643 | every line index is in range, and each line of the page is walked from its start to the next one's, down to its height |
| TextHeights.HeightIs | client/AUInterface/AUIVerticalText.cpp:611-643 | a stretch of text is as high as its characters: line feeds, carriage returns and items other than coordinates count nothing |
| VerticalTexts.DrawnFits | client/AUInterface/AUIVerticalText.cpp:597-643 | no drawn line is higher than allowed when every character fits |
| VerticalTexts.VerticalText.OnDlgItemMessage | client/AUInterface/AUIVerticalText.cpp:356-492 | each message does its transition of the scroll state and keeps the shown page within the lines |
| VerticalTexts.VerticalText.Tick | client/AUInterface/AUIVerticalText.cpp:495-528 | a pressed button scrolls one line when the time is due |
| Scrolling.RunSafe | client/AUInterface/AUIVerticalText.cpp:366-528 | any sequence of messages, ticks and new layouts keeps the first line at 0 or a whole page before the end |
| Scrolling.DrawnLines | client/AUInterface/AUIVerticalText.cpp:597-612 | all drawn lines exist, and a page is full whenever there are enough lines |
| Scrolling.FirstLineStays | client/AUInterface/AUIVerticalText.cpp:366-528 | after a layout, no run of events moves the first line below 0 exactly when the page size is not negative |
| Scrolling.NegativePage | client/AUInterface/AUIVerticalText.cpp:464-471 | a state with a negative page size in which the next-page key leaves the text |
| Scrolling.Paged | client/AUInterface/AUIVerticalText.cpp:457-471 | the page keys move by a page, as far as there are lines |
| Scrolling.OneLine | client/AUInterface/AUIVerticalText.cpp:445-490 | keys and wheel move by one line, a positive turn to the start and a negative one to the end, as far as there are lines |
| Scrolling.NextReachesEnd | client/AUInterface/AUIVerticalText.cpp:464-471 | pressing the next-page key n times moves by n pages, as far as there are lines |
| Scrolling.UpUndoesDown | client/AUInterface/AUIVerticalText.cpp:445-456 | down and up show the same lines again exactly when the end did not stop the way down |
| Scrolling.Dragged | client/AUInterface/AUIVerticalText.cpp:371-387 | dragging is monotone and reaches both ends |
| Scrolling.DragShare | client/AUInterface/AUIVerticalText.cpp:371-387 | each first line has an equal share of the width in which the bar is dragged |
| Scrolling.HeldOnly | client/AUInterface/AUIVerticalText.cpp:363-479 | only a held bar is dragged, it can be held only when there are more lines than a page has, and a release ends drags and steps |
| Scrolling.FirstDelay | client/AUInterface/AUIVerticalText.cpp:500-524 | after the first step of a pressed button a later tick is refused exactly from 500 to 549 ms on, for all times with wrap-around |
| Scrolling.StepsApart | client/AUInterface/AUIVerticalText.cpp:500-524 | later steps are refused exactly within 50 ms of the one before |
| Scrolling.ButtonSteps | client/AUInterface/AUIVerticalText.cpp:495-528 | the button where the text starts moves by one line to the start, the other one to the end, from 50 ms after the press on |
| Splitting.Splitter.Split | client/AUInterface/CSplit.cpp:27-52 | cutting the buffer in place gives the pieces, without the empty ones unless they are reserved; the loop ends |
| Splitting.NonEmptyKeeps | client/AUInterface/CSplit.cpp:27-52 | exactly the empty pieces are left out, the others keep their order |
| Splitting.StrStr | client/AUInterface/CSplit.cpp:36-38 | the first occurrence of the delimiter in the rest of the buffer, or none |
| Splitting.JoinPieces | client/AUInterface/CSplit.cpp:27-52 | joining the pieces gives back the text |
| Splitting.NoDelimiter | client/AUInterface/CSplit.cpp:27-52 | no piece contains the delimiter |
| Splitting.SplitOfJoin | client/AUInterface/CSplit.cpp:27-52 | splitting undoes joining exactly for lists in which no delimiter appears too early |
| Frames.Frame.SetMode | client/AUInterface/AUIFrame.cpp:78-162 | the asked mode when the image size allows it, else the whole image, or the first possible mode when it is unknown; and the rectangles of each mode |
| Frames.Frame.GetPixel | client/AUInterface/AUIFrame.cpp:510-568 | the image pixel of a point of the drawn frame, by one mapping for each axis |
| Frames.Tiles | client/AUInterface/AUIFrame.cpp:88-127 | the nine rectangles tile the image: each pixel is in exactly one, no other point in any |
| Frames.BandsMatch | client/AUInterface/AUIFrame.cpp:515-565 | the left, middle and right band of every drawn size map into the matching column |
| Frames.MapExactly | client/AUInterface/AUIFrame.cpp:515-565 | the outer bands are shown pixel by pixel from the nearer edge, the middle one is stretched in proportion over the middle column |
| Frames.MapWhole | client/AUInterface/AUIFrame.cpp:515-565 | a direction that is not cut is stretched in proportion, to both sides of 0 alike |
| Frames.CutIs | client/AUInterface/AUIFrame.cpp:88-127 | the columns end at thirds of the image, or at one, three and four quarters |
| Frames.PixelInSlice | client/AUInterface/AUIFrame.cpp:88-565 | in every mode the pixel of a point lies in the rectangle of the point's row and column |
| Frames.InImage | client/AUInterface/AUIFrame.cpp:515-565 | every point of the drawn frame shows a pixel of the image |
| Frames.Monotone | client/AUInterface/AUIFrame.cpp:515-565 | points further right show pixels further right or the same ones |

## Left out

- Drawing, sprites, fonts, shaders, windows, MFC notifications, timers and mouse tracking: foreign calls. The heights of characters, the size of a page and the geometry of the scroll bar are parameters.
- Files: loading, saving and encodings. Texts are sequences of characters without terminators, except where the source itself writes terminators into a buffer.
- 32-bit overflow of counters, of the digits that `%d` and `_wtoi` scan, and of products in frame and drag arithmetic. Colors and ticks are 32-bit values with wrap-around.
- Memory: allocation failure and the deletion of items that are no longer linked.
- XmlFiles.XmlFile.LoadFromText: requires a text that loads; on the others the source dereferences a null pointer. Which texts these are is proved in `XmlBuilder.LoadFailsIffMisnamed`.
- XmlItems.XmlItem.Init: requires a trimmed text of at least two characters, as the tokenizer delivers; the source reads outside shorter texts.
- XmlItems.XmlItem.GetItemText: the cache of the printed text is not modelled, the text is computed anew.
- The arena, its ranks and the other ghost maps do not exist in the source; they name the tree that the pointers stand for.
- PckTrees.PckTreeNode.AddFullName: requires parts shorter than MAX_PATH; longer ones overflow the source's buffer. Requires a directory or the root as receiver; a file node would be given children.
- PckTrees.PckTreeNode.UniqueAddChild: requires a directory or the root as receiver, as above.
- Rich items of custom types, the data of script items, icons before inventory items and the counts of items by kind.
- RichItems.EditBoxItem.Serialize: the 64-character buffers for the leading fields are not modelled, and the scales of images and boxes are kept as the texts that stand for them.
- RichItems.EditBoxItem.UnserializeContent: the scales of images and boxes are kept as the texts of their tags, not scanned as floating-point numbers.
- RichItems.EditBoxItem.Unserialize: no custom types are registered, and scales are texts as above.
- RichTexts.UnmarshalEditBoxText: without icons and script items; what they would add to the text is not modelled.
- The inventory-name filter, which differs from the others in the field that it sets.
- TreeCtrls.TreeCtrlEx.SelectItem: the native control is not part of this model; that it expands the items above a selected one is its documented behaviour.
- The rest of SelectMultiple and of the keyboard handling, which call the modelled operations for single items.
- VerticalTexts.VerticalText.SetText: takes the shown text and its items; reading them from a marshalled text is `RichTexts.UnmarshalEditBoxText`.
- VerticalTexts.VerticalText.OnDlgItemMessage: takes events; which mouse position is which event depends on sprite sizes.
- Splitting.Splitter.Split: requires a non-empty delimiter (the source does not return for an empty one) and texts without terminators; both overloads are the same algorithm.
- Property tables, XML attributes of controls, text areas and the other controls, and the server: straight-line code.
