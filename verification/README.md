# The symbolic-execution core

Coppelia searches hardware designs for exploitable states with a modified KLEE. This project models that
engine's core under `Coppelia/klee/lib`: the structures that hold program state in an optimised form, and
the rewriting of bit-vector terms that must not change their meaning. Each is proved to agree with a simple
counterpart, for all inputs and all runs.

Everything rests on one term language (`exprs`, over the arithmetic in `bits`): expressions with widths,
evaluated under an assignment of bytes to arrays. `bit_laws` says what that arithmetic means in integers.

* `slices`, `booleans`, `linear_forms`, `constructors`, `built_terms`, `folding`, `const_array_opt`,
  `folding_builder`: the constructors that simplify while they build. Each keeps the value; the mutually
  recursive ones end.
* `visitors`, `constraint_manager`: replacing known terms, and the path condition that is rewritten in place.
* `byte_order`, `object_layers`, `object_state`, `object_history`: one memory object in three overlapping
  layers, which behave as one plain byte array.
* `address_space`: copy-on-write sharing by epochs, which behaves as copying by value.
* `solver`, `resolution`, `memory_manager`: resolving pointers by queries, over the objects an allocator lays out.
* `partitions`, `process_tree`, `exploration`, `switches`, `runs`: forks, branches and ends of paths, which share
  out the initial inputs without loss or overlap.
* `merging`, `seeds`: two paths made one, and seeds repaired.
* `distances`: shortest interprocedural distances by relaxation.
* `smt_terms`, `smt_printer`, `smt_assert`, `let_layers`, `layered_asserts`, `smt_scan`, `smt_places`,
  `smt_names`, `smt_script`, `smt_query`: translation to SMT-LIB terms, with the meaning that section 3.6 of the
  SMT-LIB Standard 2.6 and the theories FixedSizeBitVectors and ArraysEx give them.
* `call_paths`, `ktest`: the call-path tree and the test-file format.

The solver is a value with four answers; `Solvers.Exact` says that they are the true ones. Random choices are
parameters or unspecified values. Where the source aborts, the model returns a flag or requires what the
assertion states.

Where code and documentation disagree the model follows the code, a lemma says exactly when the promise is kept and
another names an input for which it is not:

* a right operand of Boolean division or AShr is ignored (`Constructors.BooleanDivision`,
  `Constructors.BooleanDivisionFails`);
* the optional rewriting of constant-array reads is right in bounds only (`ConstArrayOpt.RightInBounds`,
  `ConstArrayOpt.WrongBeyondEnd`);
* a case that shares the default's block of a switch hides the default, whose inputs no state explores
  (`Switches.SwitchConditions`, `Switches.DefaultCanBeHidden`, and over whole explorations `Runs.Explore`);
* sizes close to 2^64 wrap around in the allocator, and objects overlap (`MemoryManagers.MemoryManager.Allocate`,
  `MemoryManagers.HugeSizeOverlaps`);
* hexadecimal constants need widths that are multiples of four (`SmtPrinter.ConstantMeaning`,
  `SmtPrinter.HexCutsWidth`), and elements of constant arrays more than one bit (`SmtAssert.ElementDefined`,
  `SmtAssert.BooleanElementIllSorted`);
* an array that only occurs in an update list the scan skips is printed but not declared (`SmtScans.AllDeclared`,
  `SmtQueries.UndeclaredPrinted`);
* a test with an empty string or object cannot be written to a file (`KTests.SaveAndLoad`,
  `KTests.EmptyArgumentFails`).

## Model

| member | source | states |
|---|---|---|
| `Slices.ConcatValue` | Coppelia/klee/lib/Expr/Expr.cpp:581-602 | A concatenation built by the constructor has the value of its parts side by side, also when two adjacent extracts are fused into one or two constants are folded. |
| `Slices.FuseValue` | Coppelia/klee/lib/Expr/Expr.cpp:590-597 | Two adjacent extracts of one term fuse into one extract with the joined bits, even where fusing re-enters the extract constructor. |
| `Slices.ExtractValue` | Coppelia/klee/lib/Expr/Expr.cpp:633-660 | An extract yields the bits asked for, through constants and through concatenations that lie above, below or across the cut; extract and concat call each other and end on a measure of their own (`decreases 2 * Weight(e)`), since neither makes a term heavier than the node it replaces. |
| `Slices.ZExtValue` | Coppelia/klee/lib/Expr/Expr.cpp:673-684 | Zero extension keeps the value; to a smaller width it truncates. |
| `Slices.SExtValue` | Coppelia/klee/lib/Expr/Expr.cpp:686-697 | Sign extension keeps the signed value (two's complement); to a smaller width the constructor truncates. |
| `Slices.ConcatN` | Coppelia/klee/lib/Expr/Expr.cpp:605-614 | The right-leaning chain over any number of kids has the value of all kids joined, first kid most significant. |
| `BitLaws.SignedRange` | Coppelia/klee/lib/Expr/Expr.cpp:443-480 | A word of w bits stands for the number from -2^(w-1) up to 2^(w-1) - 1 that is congruent to it modulo 2^w. |
| `BitLaws.SignExtendSigned` | Coppelia/klee/lib/Expr/Expr.cpp:379-381 | Extending a word fits the new width and keeps that number. |
| `BitLaws.SignedDivision` | Coppelia/klee/lib/Expr/Expr.cpp:403-417 | Signed division rounds towards zero: dividend = divisor * quotient + remainder over the signed numbers, the remainder is smaller than the divisor in magnitude and has the sign of the dividend; only the least number divided by minus one does not fit and wraps around. |
| `BitLaws.ArithmeticMeaning` | Coppelia/klee/lib/Expr/Expr.cpp:383-441 | Sums, differences, products and left shifts are those of the integers modulo 2^w, unsigned division and remainder and the logical right shift are integer division, the arithmetic one divides the signed number and rounds down. |
| `BitLaws.BitwiseBits` | Coppelia/klee/lib/Expr/Expr.cpp:419-429 | Bit k of a conjunction, disjunction or exclusive or is that of the operands' bits k (bit k of x is the parity of x / 2^k). |
| `BitLaws.BitsDetermine` | Coppelia/klee/lib/Expr/Expr.cpp:419-429 | Words with the same bits are the same. |
| `Booleans.AndValue` | Coppelia/klee/lib/Expr/Expr.cpp:833-847 | And is the bitwise conjunction, with the constants zero and all-ones absorbed and constants moved to the right. |
| `Booleans.OrValue` | Coppelia/klee/lib/Expr/Expr.cpp:849-863 | Or is the bitwise disjunction, with the constants zero and all-ones absorbed. |
| `Booleans.XorValue` | Coppelia/klee/lib/Expr/Expr.cpp:865-880 | Xor is bitwise exclusive or, including the Boolean case that becomes an equality with false. |
| `Booleans.EqValue` | Coppelia/klee/lib/Expr/Expr.cpp:983-1004 | The equality constructor holds exactly where both operands have the same value. |
| `Booleans.EqPartialRValue` | Coppelia/klee/lib/Expr/Expr.cpp:1038-1107 | Comparing with a constant may cancel a double negation, turn a negated Or into an And, cut the constant to the width under an SExt or ZExt (false if it does not survive the round trip) or move it across an Add or Sub with constant: the result holds exactly where the constant equals the operand. |
| `Booleans.DeMorgan` | Coppelia/klee/lib/Expr/Expr.cpp:1060-1064 | The conjunction of the two negations holds exactly where the disjunction does not. |
| `Booleans.IsZeroValue` | Coppelia/klee/lib/Expr/Expr.cpp:312-314 | `createIsZero` holds exactly where the value is zero. |
| `Booleans.Connectives` | Coppelia/klee/lib/Expr/Expr.cpp:833-880 | On Booleans the And, Or, Xor and is-zero constructors are the logical connectives. |
| `LinearForms.AddCreate` | Coppelia/klee/lib/Expr/Expr.cpp:709-755 | Termination of the mutually recursive hoisting (lexicographic on total weight and on which operand is constant) and the growth bound: above width one the result has at most size(l) + size(r) + 1 nodes; at any width its weight does not exceed that of the plain node. |
| `LinearForms.SubCreate` | Coppelia/klee/lib/Expr/Expr.cpp:757-805 | The same termination measure and growth bound for differences. |
| `LinearForms.AddValue` | Coppelia/klee/lib/Expr/Expr.cpp:709-755 | Whatever is hoisted, the sum evaluates to l + r modulo 2^w under every assignment. |
| `LinearForms.SubValue` | Coppelia/klee/lib/Expr/Expr.cpp:757-805 | The difference evaluates to l - r modulo 2^w under every assignment. |
| `LinearForms.AddHoisted` | Coppelia/klee/lib/Expr/Expr.cpp:732-755 | If in both operands a constant occurs in the spine only as the root's left child, the same holds of the sum (widths above one). |
| `LinearForms.SubHoisted` | Coppelia/klee/lib/Expr/Expr.cpp:780-805 | The hoisted form is kept by differences too. |
| `Constructors.MulValue` | Coppelia/klee/lib/Expr/Expr.cpp:807-831 | Products modulo 2^w with the constants 0 and 1 absorbed; on Booleans the product is And. |
| `Constructors.ShiftValue` | Coppelia/klee/lib/Expr/Expr.cpp:914-928 | Shl and LShr; on Booleans they are And with the negated amount. |
| `Constructors.CompareValue` | Coppelia/klee/lib/Expr/Expr.cpp:1119-1175 | All ten comparisons, canonicalised to Eq, Ult, Ule, Slt and Sle, with the Boolean cases (signed: one is minus one) as connectives. |
| `Constructors.BinaryCreateValue` | Coppelia/klee/lib/Expr/Expr.cpp:938-1000 | Every binary constructor, reached through its dispatcher, computes its operator. |
| `Constructors.BooleanDivision` | Coppelia/klee/lib/Expr/Expr.cpp:882-936 | Division, remainder and AShr drop the right operand on Booleans. They are right if and only if: for AShr, amount or dividend is false; for quotients, divisor or dividend is true; for remainders, divisor is true or dividend false. |
| `Constructors.BooleanDivisionFails` | Coppelia/klee/lib/Expr/Expr.cpp:882-936 | Inputs where they are wrong: a true Boolean shifted by one, and its remainder by zero; a false one divided by zero. |
| `Constructors.SelectValue` | Coppelia/klee/lib/Expr/Expr.cpp:550-578 | Select chooses by the condition, also where a constant Boolean branch turns it into And, Or and negation. |
| `Constructors.RollbackValue` | Coppelia/klee/lib/Expr/Expr.cpp:528-541 | A value taken from the update list without keeping the read is the value the read would have. |
| `Constructors.ReadCreateValue` | Coppelia/klee/lib/Expr/Expr.cpp:522-544 | Skipping updates whose index is decided to differ changes no read. |
| `Constructors.ReadTaken` | Coppelia/klee/lib/Expr/Expr.cpp:522-544 | A read is replaced by the value of update k exactly if the index is certainly that of update k and certainly not that of any newer one; otherwise it stays as it is. |
| `Constructors.ReadExprCreate` | Coppelia/klee/lib/Expr/Expr.cpp:522-544 | The loop with its cursor returns what the recursive definition says. |
| `BuiltTerms.BuiltValue` | Coppelia/klee/lib/Expr/Expr.cpp:485-1175 | A whole term built with the constructors, however they fold, hoist, cut and cancel on the way, has the value of the plain term under every assignment. |
| `Folding.BuiltConstant` | Coppelia/klee/lib/Expr/Expr.cpp:485-1175 | A term without reads is computed while it is built: it becomes the constant of its value. |
| `BuiltTerms.BuiltTidy` | Coppelia/klee/lib/Expr/Expr.cpp:485-1175 | Nowhere in a term that the constructors built, update lists included, does a constant occur in a spine of sums and differences except as its root's left child. |
| `BuiltTerms.BinaryTidy` | Coppelia/klee/lib/Expr/Expr.cpp:701-1175 | Each binary constructor keeps that form from its operands to its result. |
| `BuiltTerms.BuiltAccessible` | Coppelia/klee/lib/Core/Memory.cpp:457-526 | So an object can be accessed at every offset that the constructors built, unless the offset is cut to a constant that is out of bounds. |
| `ConstArrayOpt.TryConstArrayOpt` | Coppelia/klee/lib/Expr/Expr.cpp:1011-1036 | For a constant array without updates and with at most a hundred matches the disjunction holds exactly on the indices in bounds that hold the constant; in every other case the comparison itself comes back. |
| `ConstArrayOpt.RightInBounds` | Coppelia/klee/lib/Expr/Expr.cpp:1011-1036 | Over all inputs the disjunction means the comparison if and only if the index is always in bounds, for every index that does not read the constant array itself. |
| `ConstArrayOpt.WrongBeyondEnd` | Coppelia/klee/lib/Expr/Expr.cpp:1011-1036 | An input where it does not: an index one past an array of one element. |
| `FoldingBuilder.BuildAdd` | Coppelia/klee/lib/Expr/ExprBuilder.cpp:699-786 | The folding rules for sums end and add at most one node, although constants are accepted on both sides. |
| `FoldingBuilder.BuildAddValue` | Coppelia/klee/lib/Expr/ExprBuilder.cpp:699-786 | Each of the folding rules for sums keeps the value l + r modulo 2^w. |
| `FoldingBuilder.BuildSub` | Coppelia/klee/lib/Expr/ExprBuilder.cpp:788-870 | The folding rules for differences end and add at most one node. |
| `FoldingBuilder.BuildSubValue` | Coppelia/klee/lib/Expr/ExprBuilder.cpp:788-870 | Each of the folding rules for differences keeps the value l - r modulo 2^w. |
| `FoldingBuilder.BuildAddLifted` | Coppelia/klee/lib/Expr/ExprBuilder.cpp:699-786 | If in both operands a constant occurs in the spine only next to the root, on either side, so it does in the sum: constants that meet are folded. |
| `FoldingBuilder.BuildSubLifted` | Coppelia/klee/lib/Expr/ExprBuilder.cpp:788-870 | The same for differences. |
| `Visitors.Visit` | Coppelia/klee/lib/Expr/ExprVisitor.cpp:24-125 | Visiting ends even when the rebuilt term is visited again: a visited term is unchanged or strictly lighter. |
| `Visitors.VisitValue` | Coppelia/klee/lib/Expr/ExprVisitor.cpp:24-125 | Wherever the replaced terms equal their replacements, visiting and rebuilding keep the value. |
| `Visitors.VisitSettles` | Coppelia/klee/lib/Expr/Constraints.cpp:56-75 | The repeating replacement visitor leaves nothing replaceable anywhere it looks. |
| `Visitors.SettledFixed` | Coppelia/klee/lib/Expr/Constraints.cpp:56-75 | On a term without replaceable parts the visitor is the identity. |
| `Visitors.UnchangedSettled` | Coppelia/klee/lib/Expr/Constraints.cpp:22-75 | A visitor, repeating or not, leaves a term as it is exactly if nothing known is left anywhere it looks. |
| `Visitors.RebuildValue` | Coppelia/klee/include/klee/Expr.h:405-935 | Rebuilding a node with its simplifying constructor gives it the value of the plain node over the new operands. |
| `Constraints.EqualitiesSound` | Coppelia/klee/lib/Expr/Constraints.cpp:108-124 | The equalities collected from a conjunction hold wherever the conjunction does. |
| `Constraints.KnownTerms` | Coppelia/klee/lib/Expr/Constraints.cpp:106-124 | What is known are the right-hand sides of the equalities with constants and every other constraint. |
| `Constraints.KnownValue` | Coppelia/klee/lib/Expr/Constraints.cpp:106-124 | The first constraint about a term decides its value: the constant, or true. |
| `Constraints.ConstraintManager.SimplifyExpr` | Coppelia/klee/lib/Expr/Constraints.cpp:103-126 | On every assignment that satisfies the constraints the simplified expression has the old value, and none of the known terms is left in it. |
| `Constraints.ConstraintManager.RewriteConstraints` | Coppelia/klee/lib/Expr/Constraints.cpp:78-97 | With half the list swapped out and changed constraints added re-entrantly, the conjunction keeps its meaning wherever the new equality holds; a false constraint is found only if nothing satisfies old conjunction and equality. It reports a change exactly if some constraint has a known term in it, and then total weight falls, which is also why it ends. |
| `Constraints.ConstraintManager.AddConstraintInternal` | Coppelia/klee/lib/Expr/Constraints.cpp:128-166 | Through And-splitting and equality rewriting the conjunction becomes the old one and e; the abort is reached only if the two contradict each other. |
| `Constraints.ConstraintManager.AddConstraint` | Coppelia/klee/lib/Expr/Constraints.cpp:168-171 | The new conjunction is equivalent, under every assignment, to the old one and e, and the `invalid (false) constraint` abort cannot happen when that is satisfiable. A list without conjunctions and constants stays without them, and a constraint with a known term in it adds less than its weight. |
| `ByteOrder.LoadAfterStore` | Coppelia/klee/lib/Core/Memory.cpp:484-500 | Assembling the bytes of a stored n-byte value gives the value back, in either byte order. |
| `ByteOrder.LoadBesideStore` | Coppelia/klee/lib/Core/Memory.cpp:529-560 | A store does not affect a load from other bytes. |
| `ByteOrder.StorePartsAt` | Coppelia/klee/lib/Core/Memory.cpp:529-560 | After any number of the steps of a store each byte written so far holds its part of the value and every other byte is as before. |
| `ByteOrder.StoredLaidOut` | Coppelia/klee/lib/Core/Memory.cpp:555-568 | After a store of n bytes, byte off + j has bits 8j to 8j + 7 of the value in little-endian order and bits 8(n-1-j) to 8(n-1-j) + 7 in big-endian order; all other bytes are as before. |
| `ByteOrder.LoadedLaidOut` | Coppelia/klee/lib/Core/Memory.cpp:484-500 | The bytes loaded from are those of the loaded value in that order. |
| `ByteOrder.TwoBytes` | Coppelia/klee/lib/Core/Memory.cpp:484-500 | Two bytes b and c in a row are the number b + 256c in little-endian and 256b + c in big-endian order. |
| `ObjectLayers.WriteConcreteCorrect` | Coppelia/klee/lib/Core/Memory.cpp:417-424 | A concrete byte write keeps the cache invariant and replaces exactly one byte of the plain array. |
| `ObjectLayers.WriteKnownCorrect` | Coppelia/klee/lib/Core/Memory.cpp:426-436 | A symbolic byte write at a concrete offset keeps the cache invariant and replaces exactly one byte. |
| `ObjectLayers.FlushForReadCorrect` | Coppelia/klee/lib/Core/Memory.cpp:287-305 | Flushing a byte for reading keeps the invariant, changes no byte and leaves the update list up to date for it. |
| `ObjectLayers.FlushForWriteCorrect` | Coppelia/klee/lib/Core/Memory.cpp:307-335 | Flushing for writing keeps the invariant, changes no byte and leaves the byte to the update list alone. |
| `ObjectLayers.ExtendCorrect` | Coppelia/klee/lib/Core/Memory.cpp:438-455 | A write at a symbolic offset to a fully flushed object stores, under every assignment, at the offset's value; out of bounds it changes nothing. |
| `ObjectLayers.ConstantArrayInstalled` | Coppelia/klee/lib/Core/Memory.cpp:187-236 | Replacing leading constant writes by a constant array changes no byte. |
| `ObjectLayers.ReadBack` | Coppelia/klee/lib/Core/Memory.cpp:457-560 | A value of any byte-multiple width or Bool that was written is what a read of the same width returns. |
| `ObjectLayers.HoistedStaysSymbolic` | Coppelia/klee/lib/Core/Memory.cpp:467-482 | If a symbolic offset is in hoisted form, none of the byte offsets computed from it folds to a constant, as the symbolic byte accesses assert. |
| `ObjectStates.ObjectState.Concrete` | Coppelia/klee/lib/Core/Memory.cpp:101-120 | A new object is all zeros, with or without an array behind it. |
| `ObjectStates.ObjectState.Symbolic` | Coppelia/klee/lib/Core/Memory.cpp:123-137 | An object over an array has the array's contents under every assignment. |
| `ObjectStates.ObjectState.Copy` | Coppelia/klee/lib/Core/Memory.cpp:139-161 | A copy has the same layers in buffers of its own, and no owner. |
| `ObjectStates.ObjectState.InitializeTo` | Coppelia/klee/lib/Core/Memory.cpp:238-270 | All bytes become the given one (zero, or 0xAB for "random"). |
| `ObjectStates.ObjectState.FlushRangeForRead` | Coppelia/klee/lib/Core/Memory.cpp:287-305 | In place: no byte changes and no byte of the range is left unflushed. |
| `ObjectStates.ObjectState.FlushRangeForWrite` | Coppelia/klee/lib/Core/Memory.cpp:307-335 | In place: no byte changes and no byte of the range is left cached. |
| `ObjectStates.ObjectState.AbsorbConstantWrites` | Coppelia/klee/lib/Core/Memory.cpp:203-222 | The table of leading constant writes followed by the other writes says the same about every byte. |
| `ObjectStates.ObjectState.GetUpdates` | Coppelia/klee/lib/Core/Memory.cpp:187-236 | The lazily created array changes no byte and leaves an array to read from. |
| `ObjectStates.ObjectState.Read8` | Coppelia/klee/lib/Core/Memory.cpp:387-398 | A byte read at a concrete offset evaluates to the plain array's byte, whichever layer has it, and changes nothing. |
| `ObjectStates.ObjectState.Read8Symbolic` | Coppelia/klee/lib/Core/Memory.cpp:400-415 | A byte read at a symbolic offset flushes the whole object, changes no byte and, in bounds, yields the byte at the offset's value. |
| `ObjectStates.ObjectState.Write8` | Coppelia/klee/lib/Core/Memory.cpp:417-424 | Replaces one byte of the plain array. |
| `ObjectStates.ObjectState.Write8Expr` | Coppelia/klee/lib/Core/Memory.cpp:426-436 | Replaces one byte by the expression's value under every assignment. |
| `ObjectStates.ObjectState.Write8Symbolic` | Coppelia/klee/lib/Core/Memory.cpp:438-455 | Stores at the offset's value under every assignment. |
| `ObjectStates.ObjectState.Read` | Coppelia/klee/lib/Core/Memory.cpp:457-500 | A read of any byte-multiple width or Bool at any offset, in either byte order, is the value the plain array holds there under every assignment for which it is in bounds: the bytes there are those of the value, lowest first if little-endian. The object's bytes do not change. |
| `ObjectStates.ObjectState.Write` | Coppelia/klee/lib/Core/Memory.cpp:502-560 | A write of any width at any offset is the store into the plain array, under every assignment; in bounds it leaves the bytes of the value there, lowest first if little-endian. |
| `ObjectStates.ObjectState.WriteWord` | Coppelia/klee/lib/Core/Memory.cpp:562-584 | The 16, 32 and 64-bit constant writes leave the bytes of the value, lowest first if little-endian, and change no other. |
| `ObjectHistories.Replay` | Coppelia/klee/lib/Core/Memory.cpp:387-584 | For any history of loads and stores on any object: its bytes end up those of a plain array after the same stores, and every load in bounds answered what the plain array held at that moment. |
| `AddressSpaces.AddressSpace.Fork` | Coppelia/klee/lib/Core/AddressSpace.h:54-56 | The copy shares all objects and both spaces move to the same higher epoch. |
| `AddressSpaces.AddressSpace.BindObject` | Coppelia/klee/lib/Core/AddressSpace.cpp:22-26 | The space takes ownership of the object in its own epoch; its bytes stay. |
| `AddressSpaces.AddressSpace.GetWriteable` | Coppelia/klee/lib/Core/AddressSpace.cpp:38-50 | The object itself if the space owns it and otherwise a fresh copy with the same layers, bound in its place and owned by the space. |
| `AddressSpaces.OwnedIsPrivate` | Coppelia/klee/lib/Core/AddressSpace.h:44-51 | What a space owns by its epoch, no other space (and no other binding) holds. |
| `AddressSpaces.ForkSpace` | Coppelia/klee/lib/Core/AddressSpace.h:54-56 | Forking keeps the invariant over any number of spaces: a shared object's owner epoch is strictly below the epochs of all spaces that share it. |
| `AddressSpaces.Bind` | Coppelia/klee/lib/Core/AddressSpace.cpp:22-26 | Binding keeps the invariant and every other binding of every space. |
| `AddressSpaces.Unbind` | Coppelia/klee/lib/Core/AddressSpace.cpp:28-30 | Unbinding keeps the invariant and every other binding. |
| `AddressSpaces.Own` | Coppelia/klee/lib/Core/AddressSpace.cpp:38-50 | `getWriteable` keeps the invariant, changes no bytes anywhere, and what it returns is held by no other binding. |
| `AddressSpaces.WriteInPlace` | Coppelia/klee/lib/Core/AddressSpace.cpp:38-50 | A write to an owned object keeps the invariant; every object any other binding holds is untouched. |
| `AddressSpaces.Perform` | Coppelia/klee/lib/Core/AddressSpace.cpp:22-50 | One fork, drop, allocation, free, write (copying first if needed) or read on shared spaces refines the same step on memories that are copied as values, and reads get the value-copied answer. |
| `AddressSpaces.Run` | Coppelia/klee/lib/Core/AddressSpace.cpp:22-50 | The same for any sequence of operations on any number of spaces: the spaces left depict the value-copied memories and every read along the way was answered from them. |
| `AddressSpaces.OnlyOwnOperations` | Coppelia/klee/lib/Core/AddressSpace.cpp:22-50 | A memory no operation writes to is what it was, whatever is done through all other spaces. |
| `Resolution.BoundsCheckValue` | Coppelia/klee/lib/Core/Memory.h:120-138 | The pointer check by one unsigned difference holds exactly when the pointer is inside the object, a zero-size object taking up one address. |
| `Resolution.BoundsCheckBytesValue` | Coppelia/klee/lib/Core/Memory.h:123-146 | The check for an access of several bytes holds exactly when all of them are inside. |
| `Resolution.ResolveOneConstant` | Coppelia/klee/lib/Core/AddressSpace.cpp:54-71 | A concrete address resolves to the object it is in and to nothing exactly when there is none. |
| `Resolution.ResolveOne` | Coppelia/klee/lib/Core/AddressSpace.cpp:73-161 | A symbolic pointer resolves to an object it may be in, and to none exactly when it may be in no object, despite searching outward from one example and stopping early. |
| `Resolution.Resolve` | Coppelia/klee/lib/Core/AddressSpace.cpp:163-286 | Each object the pointer may be in exactly once and no others; the answer is `incomplete` only when a limit above one was reached, so with limit zero it never is. |
| `MemoryManagers.MemoryManager.Allocate` | Coppelia/klee/lib/Core/MemoryManager.cpp:92-148 | When deterministic allocation succeeds, where the object goes, that it keeps the low 32 bits of its size, and where the cursor goes. Object and cursor lie past the old cursor if and only if no 64-bit sum wraps around; then objects stay in address order, aligned, with red zones between them. |
| `MemoryManagers.MemoryManager.ValidInOrder` | Coppelia/klee/lib/Core/MemoryManager.cpp:109-123 | Such objects are what resolution needs: sorted, addressable and not overlapping. |
| `MemoryManagers.SlotPastCursor` | Coppelia/klee/lib/Core/MemoryManager.cpp:111-112 | The computed slot is at or past the cursor if and only if rounding up did not wrap around. |
| `MemoryManagers.HugeSizeOverlaps` | Coppelia/klee/lib/Core/MemoryManager.cpp:109-123 | A request where a sum does wrap: size 2^64 - 16 on a fresh space succeeds, and the next object is placed inside the first. |
| `MemoryManagers.MemoryManager.MarkFreed` | Coppelia/klee/lib/Core/MemoryManager.cpp:170-176 | Freeing removes one object and keeps the rest in order. |
| `Partitions.DivideSome` | Coppelia/klee/lib/Core/Executor.cpp:780-864 | Dividing some of a part of a partition into non-empty exclusive pieces gives a partition of everything but the rest of that part. |
| `Exploration.TwoAlternatives` | Coppelia/klee/lib/Core/Executor.cpp:1002-1098 | An open condition and its negation divide the path's inputs into two non-empty, exclusive halves. |
| `Exploration.EvenAfter` | Coppelia/klee/lib/Core/ExecutionState.cpp:129-140 | Halving one weight for a new state keeps all weights 2^-depth with sum one. |
| `Exploration.ExecutionState.Branch` | Coppelia/klee/lib/Core/ExecutionState.cpp:129-140 | Both states are one deeper and get half the weight each. |
| `Exploration.ExecutionState.AddConstraint` | Coppelia/klee/lib/Core/Executor.cpp:1102-1133 | The path's inputs become exactly those that also meet the condition. |
| `Exploration.Executor.Fork` | Coppelia/klee/lib/Core/Executor.cpp:1002-1098 | A settled condition leaves the state alone on its side; an open one yields two states, one deeper, with exactly the inputs of either side, unless that reaches the depth limit: then and only then both end. Partition, weights and process tree are kept. |
| `Exploration.Executor.BranchAmong` | Coppelia/klee/lib/Core/Executor.cpp:796-812 | Forking among any feasible and exclusive conditions, from randomly chosen predecessors, yields one state per condition with exactly its inputs, and keeps the invariant; covered no more are exactly the inputs that meet none of the conditions. |
| `Exploration.Executor.Inhibit` | Coppelia/klee/lib/Core/Executor.cpp:787-795 | At the fork limit the state goes on alone with one condition, and exactly what the others would have taken is no longer covered. |
| `Exploration.AlternativesMissNothing` | Coppelia/klee/lib/Core/Executor.cpp:780-864 | Feasible and exclusive conditions share out the path if and only if they miss no input of it. |
| `Exploration.Executor.TerminateState` | Coppelia/klee/lib/Core/Executor.cpp:3074-3104 | Ending a state keeps the invariant: a state not yet known to the searcher leaves tree and lists at once, any other is put on the list of removed states. |
| `Exploration.Executor.UpdateStates` | Coppelia/klee/lib/Core/Executor.cpp:2703-2726 | Afterwards the states are the live ones without the removed ones, and they are exactly the data on the leaves of the process tree. |
| `Exploration.Executor.Accounted` | Coppelia/klee/lib/Core/Executor.cpp:780-1098 | What the invariant means: every covered input is on the path of exactly one state, alive or ended; no path is infeasible; every weight is 2^-depth; the weights add up to one. At the start all inputs are covered. |
| `Runs.Explore` | Coppelia/klee/lib/Core/Executor.cpp:2949-3015 | For any number of steps, each on the state the random walk selects, the invariant holds throughout and the tree's leaves carry exactly the live states. Each step exchanges the path of one state that is alive then for its successors and leaves all other paths alone. Covered are all inputs but the losses of the steps, so all of them if and only if no switch on the way hid its default from some input of its path. |
| `Runs.Perform` | Coppelia/klee/lib/Core/Executor.cpp:2949-3015 | One step: a settled condition leaves the path, an open one splits it into two paths, one deeper, with the inputs of either side, or ends it if that reaches the depth limit, a switch into one path for each block it sends inputs to, with exactly those inputs, and an end drops it. |
| `Runs.PerformJump` | Coppelia/klee/lib/Core/Executor.cpp:1759-1882 | Any switch leaves one state for each block that some input is sent to and not lost, each block once, and the state's inputs are exactly those; the other states go on. Covered no more are exactly the inputs that go to the default block by default while others go there by a case. |
| `Runs.NotShadowed` | Coppelia/klee/lib/Core/Executor.cpp:1848-1860 | A switch whose default block no case shares loses nothing. |
| `Switches.SwitchConditions` | Coppelia/klee/lib/Core/Executor.cpp:1759-1882 | The conditions of a switch are feasible and exclusive, one for each block that some input is sent to and not lost, and each holds on exactly those inputs. They are exhaustive if and only if no block is reached both by a case and by default; otherwise they miss exactly the default's inputs. |
| `Switches.CollectTargets` | Coppelia/klee/lib/Core/Executor.cpp:1808-1846 | The table has exactly the feasible blocks, each once, with the condition of all its cases; what is left over is the default's condition. |
| `Switches.FaithfulAlternatives` | Coppelia/klee/lib/Core/Executor.cpp:1808-1871 | Conditions that follow the switch and cover all reachable blocks share out the path's inputs. |
| `Switches.Shadowed` | Coppelia/klee/lib/Core/Executor.cpp:1848-1860 | When a case shares the default's block, the conditions are no alternatives: they miss the inputs that go there by default and no others. |
| `Switches.DefaultCanBeHidden` | Coppelia/klee/lib/Core/Executor.cpp:1848-1860 | An input that is lost: a switch on a byte whose only case leads to the default's block. |
| `ProcessTrees.PTree.Split` | Coppelia/klee/lib/Core/PTree.cpp:26-34 | Splitting a leaf that gave up its data keeps the tree: data exactly on leaves, one leaf per state. |
| `ProcessTrees.PTree.Remove` | Coppelia/klee/lib/Core/PTree.cpp:36-51 | Removing a leaf deletes exactly it and the ancestors left childless; no other state's leaf goes. |
| `ProcessTrees.PTree.SelectState` | Coppelia/klee/lib/Core/Searcher.cpp:267-287 | The random walk ends, never at a missing node, and at a live state. |
| `ProcessTrees.PTree.EveryStateSelectable` | Coppelia/klee/lib/Core/Searcher.cpp:267-287 | For every live state there are coins that lead to it. |
| `ProcessTrees.PTree.InnerNode` | Coppelia/klee/lib/Core/PTree.cpp:36-51 | A node without data has a child, and its children are deeper. |
| `Merging.ExecutionState.Merge` | Coppelia/klee/lib/Core/ExecutionState.cpp:190-349 | The merge succeeds exactly when place, symbolics, frames and bound objects agree. Then the path condition is equivalent to A or B; on A's inputs registers bound in both and all memory bytes are A's, on inputs of B only they are B's; otherwise nothing changes. |
| `Merging.MergeConditions` | Coppelia/klee/lib/Core/ExecutionState.cpp:210-346 | The common conditions and either remainder together are the union of the two paths, and the selecting condition tells them apart. |
| `Merging.MergeFrame` | Coppelia/klee/lib/Core/ExecutionState.cpp:308-323 | Registers bound in both select by path; all others stay. |
| `Merging.MergeMemory` | Coppelia/klee/lib/Core/ExecutionState.cpp:325-340 | All bytes of the mutated objects become selections, written through copy-on-write, and no other space is affected. |
| `Merging.EitherPath` | Coppelia/klee/lib/Core/ExecutionState.cpp:295-346 | Common conditions with the disjunction of the remainders hold exactly where one of the two conjunctions does. |
| `Seeds.EvaluateValue` | Coppelia/klee/lib/Expr/ExprEvaluator.cpp:14-105 | On every input with the seed's bytes, filling them in keeps the value of the expression; bytes the seed lacks stay symbolic. |
| `Seeds.EvaluateFills` | Coppelia/klee/include/klee/util/Assignment.h:55-83 | If the seed holds every byte that the expression reads under the seed, and no divisor is zero there, the expression evaluates to the constant that it is under the seed. |
| `Seeds.DirectReadsExactly` | Coppelia/klee/lib/Expr/ExprUtil.cpp:21-75 | The direct reads of an expression are its reads at constants that can be reached through operands. |
| `Seeds.SeedInfo.FixByte` | Coppelia/klee/lib/Core/SeedInfo.cpp:95-118 | The byte is changed if and only if its old value is impossible given constraints, condition and bytes already fixed; afterwards the constraints fix it to what the seed has and are still satisfiable. |
| `Seeds.SeedInfo.PatchSeed` | Coppelia/klee/lib/Core/SeedInfo.cpp:60-164 | If constraints and condition are satisfiable together, afterwards the condition may hold under the seed, so the final assertion cannot fail, and it does hold if the seed holds all that the condition reads; only bytes read directly change unless that is not enough; a seed that already fits some wanted input is left alone. |
| `Seeds.AllFixed` | Coppelia/klee/lib/Core/SeedInfo.cpp:154-163 | With all bytes fixed the condition may hold under the seed; `Seeds.EvaluateFills` says when it then holds. |
| `Distances.RelaxProgress` | Coppelia/klee/lib/Core/StatsTracker.cpp:767-820 | Each relaxation that changes something decreases zero entries, value sum and entry mismatches lexicographically: the reason the loop ends. |
| `Distances.RelaxRealized` | Coppelia/klee/lib/Core/StatsTracker.cpp:767-820 | Every distance ever stored is the cost of an actual interprocedural path. |
| `Distances.SettledPath` | Coppelia/klee/lib/Core/StatsTracker.cpp:767-820 | When nothing changes any more no path to the return is cheaper than the stored distance, through calls and recursion. |
| `Distances.StatsTracker.ComputeMinDistToReturn` | Coppelia/klee/lib/Core/StatsTracker.cpp:735-821 | The loop ends with exact shortest distances to the return and through functions: zero exactly when there is none. |
| `Distances.StatsTracker.ComputeMinDistToUncovered` | Coppelia/klee/lib/Core/StatsTracker.cpp:824-899 | The second loop ends with exact shortest distances to uncovered code, zero exactly when none can be reached. |
| `Distances.SettledTrip` | Coppelia/klee/lib/Core/StatsTracker.cpp:841-899 | At its fixed point no way to uncovered code is cheaper than the stored distance. |
| `Distances.StackExact` | Coppelia/klee/lib/Core/StatsTracker.cpp:663-683 | Combining frames bottom-up gives the exact distance from a whole call stack. |
| `Distances.DistancesOnReturn` | Coppelia/klee/lib/Core/StatsTracker.cpp:900-922 | Each frame is told the exact distance of the stack below it. |
| `SmtPrinter.ConstantMeaning` | Coppelia/klee/lib/Expr/ExprSMTLIBPrinter.cpp:109-165 | Decimal and binary constants are right at every width; hexadecimal ones if and only if the width is one or a multiple of four. |
| `SmtPrinter.HexCutsWidth` | Coppelia/klee/lib/Expr/ExprSMTLIBPrinter.cpp:109-165 | A six-bit constant in hexadecimal comes out with four bits. |
| `SmtPrinter.PrintMeaning` | Coppelia/klee/lib/Expr/ExprSMTLIBPrinter.cpp:167-405 | Printing any well-typed expression at either sort yields a well-sorted term of that sort with the expression's value, under names that stand for their expressions. |
| `SmtPrinter.CastMeaning` | Coppelia/klee/lib/Expr/ExprSMTLIBPrinter.cpp:966-1021 | The casts between Bool and bit-vectors keep the value. |
| `SmtPrinter.ArrayPrinted` | Coppelia/klee/lib/Expr/ExprSMTLIBPrinter.cpp:476-502 | The nested stores hold in every cell what the read expression would find. |
| `SmtPrinter.AShrMeaning` | Coppelia/klee/lib/Expr/ExprSMTLIBPrinter.cpp:340-405 | The guarding ite makes `bvashr` agree with a shift that is zero from the width on. |
| `SmtPrinter.ConnectiveMeaning` | Coppelia/klee/lib/Expr/ExprSMTLIBPrinter.cpp:1067-1105 | Bool connectives are the bitwise operators on single bits. |
| `SmtPrinter.SortOfBool` | Coppelia/klee/lib/Expr/ExprSMTLIBPrinter.cpp:933-964 | What is printed as Bool without a cast has width one. |
| `SmtAssert.AssertMeaning` | Coppelia/klee/lib/Expr/ExprSMTLIBPrinter.cpp:862-931 | However shared expressions are arranged in nested lets, as long as no number is used twice the assertion has no free name, is well sorted and means the expression. |
| `SmtAssert.QueryMeaning` | Coppelia/klee/lib/Expr/ExprSMTLIBPrinter.cpp:654-668 | The single assertion is satisfied by exactly the inputs that meet all constraints and refute the query. |
| `SmtAssert.ElementDefined` | Coppelia/klee/lib/Expr/ExprSMTLIBPrinter.cpp:585-620 | The definition of a constant array's element is well sorted, and then true exactly if the declared array has the element, if and only if elements are wider than one bit and the display mode can show them. |
| `SmtAssert.DefinitionsExact` | Coppelia/klee/lib/Expr/ExprSMTLIBPrinter.cpp:585-620 | All definitions together hold exactly of those contents for which every read inside the array's bounds, past any updates, finds what a read of the constant array finds. |
| `SmtScripts.ScriptMeaning` | Coppelia/klee/lib/Expr/ExprSMTLIBPrinter.cpp:563-668 | Over declared arrays, the definitions and the assertion are satisfiable together exactly when some input meets the constraints and refutes the query; from every model such an input is taken back, and every such input fills in a model. |
| `SmtScripts.DeclareMeaning` | Coppelia/klee/lib/Expr/ExprSMTLIBPrinter.cpp:563-580 | A term means the same before and after its arrays are replaced by declared ones with matching contents. |
| `SmtScans.Scanner.Scan` | Coppelia/klee/lib/Expr/ExprSMTLIBPrinter.cpp:695-727 | The recursive scan with its sets, update lists included, computes the specification, of which `SmtPlaces.SharedExactly` and `SmtScans.AllDeclared` say what it finds. |
| `SmtPlaces.SharedExactly` | Coppelia/klee/lib/Expr/ExprSMTLIBPrinter.cpp:695-727 | Constants apart, the scan has seen exactly the expressions that stand at some place and records for naming exactly those that stand at two: places are the constraints and the query, the operands of everything seen, and the entries of the update lists searched. |
| `SmtScans.AllDeclared` | Coppelia/klee/lib/Expr/ExprSMTLIBPrinter.cpp:695-727 | The arrays that occur in constraints and query are those that get declared and those in update lists that the scan skips; so all of them are declared if and only if the skipped lists have no others. |
| `SmtScans.UndeclaredArray` | Coppelia/klee/lib/Expr/ExprSMTLIBPrinter.cpp:703-717 | An expression with an array that is not found: it occurs only in the update list of a second read of another array. |
| `SmtQueries.PrintQuery` | Coppelia/klee/lib/Expr/ExprSMTLIBPrinter.cpp:504-668 | From scan to assertion: the arrays that occur in the query are all declared exactly when the skipped update lists have no others; they are the arrays that are printed, unless folding the assertion together drops some; and the script is satisfiable exactly when a counterexample exists. Named are exactly the expressions that stand at two places, each once and by a number of its own, and each name stands wherever its expression would be printed inside its let. |
| `SmtNames.PrintNames` | Coppelia/klee/lib/Expr/ExprSMTLIBPrinter.cpp:167-405 | A printed expression uses the names of exactly those named expressions that are met from the top, and prints nothing inside them. |
| `SmtNames.NestedNames` | Coppelia/klee/lib/Expr/ExprSMTLIBPrinter.cpp:862-931 | Every let gives the names of its level to terms that use the names of the earlier levels wherever they can, and the innermost term uses all of them. |
| `SmtQueries.UndeclaredPrinted` | Coppelia/klee/lib/Expr/ExprSMTLIBPrinter.cpp:703-717 | A query with an array that is printed although it is not declared. |
| `SmtQueries.PrintRoots` | Coppelia/klee/lib/Expr/ExprSMTLIBPrinter.cpp:167-405 | Printing introduces no array and leaves none out, except in what is named. |
| `SmtQueries.NestedRoots` | Coppelia/klee/lib/Expr/ExprSMTLIBPrinter.cpp:862-931 | With the nested lets, every array of the expression is printed, and none but its own and those of the named expressions. |
| `SmtAssert.BooleanElementIllSorted` | Coppelia/klee/lib/Expr/ExprSMTLIBPrinter.cpp:585-620 | The definition of a Boolean element is ill sorted. |
| `SmtAssert.StillBound` | Coppelia/klee/lib/Expr/ExprSMTLIBPrinter.cpp:892-914 | Inside each let the new names stand for their expressions, and so do the outer ones. |
| `LetLayers.CollectUses` | Coppelia/klee/lib/Expr/ExprSMTLIBPrinter.cpp:732-772 | The traversal with an explicit stack finds exactly the named expressions met below an expression without looking inside those met. |
| `LetLayers.UsesExactly` | Coppelia/klee/lib/Expr/ExprSMTLIBPrinter.cpp:732-772 | An expression uses a named one exactly if a chain of operands leads there that meets no other named expression on the way. |
| `LetLayers.ScanBindingExprDeps` | Coppelia/klee/lib/Expr/ExprSMTLIBPrinter.cpp:729-819 | The layering ends with every name in exactly one level, the first that all it uses comes before; if there are names, the first level is not empty. |
| `LetLayers.SomethingReady` | Coppelia/klee/lib/Expr/ExprSMTLIBPrinter.cpp:774-817 | As long as names are left, one of them uses only what is done. |
| `LetLayers.NumberedUnique` | Coppelia/klee/lib/Expr/ExprSMTLIBPrinter.cpp:772-817 | Numbers given out consecutively are never used twice. |
| `LayeredAsserts.PrintLayered` | Coppelia/klee/lib/Expr/ExprSMTLIBPrinter.cpp:862-931 | Layering, numbering and nested lets together, for any set of named expressions: the term means the expression. |
| `CallPaths.CallPathManager.GetCallPath` | Coppelia/klee/lib/Core/CallPathManager.cpp:92-105 | The node for a call from a path; the same question gets the same node, and paths are only added. |
| `CallPaths.CallPathManager.Serve` | Coppelia/klee/lib/Core/CallPathManager.cpp:80-105 | For any sequence of calls, each made from the root or from a node reached before: the same call from the same node gets the same node; a call new on the caller's chain leads to a child and any other to the caller itself or one of its ancestors; no path gets longer than the number of different calls. |
| `CallPaths.CallPathManager.ComputeCallPath` | Coppelia/klee/lib/Core/CallPathManager.cpp:80-90 | The parent itself or one of its ancestors that makes the same call, or else one new node below the parent. |
| `CallPaths.CallPathManager.CallsDistinct` | Coppelia/klee/lib/Core/CallPathManager.cpp:80-90 | No (call site, function) pair repeats on the way up from any node. |
| `CallPaths.CallPathManager.DepthBounded` | Coppelia/klee/lib/Core/CallPathManager.cpp:80-90 | So the depth is below the number of pairs, however deep the recursion. |
| `CallPaths.CallPathManager.Summarize` | Coppelia/klee/lib/Core/CallPathManager.cpp:60-78 | One reverse pass leaves in every node the sum of its subtree's statistics (the root gathers the whole on top of what it held) and fills the table: it has exactly the calls some node stands for, each with the sums of counts and subtree statistics over all its nodes. |
| `CallPaths.TallyOne` | Coppelia/klee/lib/Core/CallPathManager.cpp:74-76 | Adding one more node's numbers under its call keeps the table right. |
| `CallPaths.GatheredSubtree` | Coppelia/klee/lib/Core/CallPathManager.cpp:66-77 | When its turn comes in the pass, a node holds the sum of its subtree. |
| `KTests.RoundTrip` | Coppelia/klee/lib/Basic/KTest.cpp:94-216 | Decoding the encoded bytes of a test without empty strings or objects yields the same test with version 3 and consumes the bytes exactly. |
| `KTests.FileFormat` | Coppelia/klee/lib/Basic/KTest.cpp:94-216 | Bytes are read as a test exactly if they begin with that test's layout, of any version up to three and with either magic: reading and writing are inverse to each other. |
| `KTests.EncodedBytes` | Coppelia/klee/lib/Basic/KTest.cpp:33-65 | What is written consists of bytes. |
| `KTests.WordValue` | Coppelia/klee/lib/Basic/KTest.cpp:25-40 | The four digits of a 32-bit number make up the number, most significant first. |
| `KTests.SampleFile` | Coppelia/klee/lib/Basic/KTest.cpp:178-216 | A whole file byte by byte. |
| `KTests.TextReadBack` | Coppelia/klee/lib/Basic/KTest.cpp:42-65 | Strings read back as written, except the empty one. |
| `KTests.ObjectsReadBack` | Coppelia/klee/lib/Basic/KTest.cpp:151-171 | Objects read back as written, in order. |
| `KTests.File.FromFile` | Coppelia/klee/lib/Basic/KTest.cpp:94-176 | The sequence of file reads computes the decoding, failing exactly where it fails. |
| `KTests.File.ToFile` | Coppelia/klee/lib/Basic/KTest.cpp:178-220 | The sequence of file writes produces the encoding, which consists of bytes, and succeeds exactly when nothing is empty. |
| `KTests.SaveAndLoad` | Coppelia/klee/lib/Basic/KTest.cpp:94-220 | Writing and reading a file gives the test back, or fails exactly when something in it is empty. |
| `KTests.EmptyArgumentFails` | Coppelia/klee/lib/Basic/KTest.cpp:42-65 | A test with one empty argument: it is not writable, and its encoding could not be read back. |

## Left out

- Constructors.BinaryCreateValue: Boolean division, remainder and AShr are not part of well-typed terms (canonical form excludes them, `Coppelia/klee/include/klee/Expr.h:57-60`); `Constructors.BooleanDivision` says what the constructors do with them.
- Exprs.Eval: division by zero and over-shifts get the values of SMT-LIB's total functions, except that a shift by the width or more is zero; folding a constant division by zero, which the arithmetic library leaves undefined, is not modelled further, and neither is folding an arithmetic shift of a negative constant by the width or more, which that library fills with the sign where the printed query has zero. Terms whose widths do not fit are not modelled.
- FoldingBuilder.BuildAdd: the folding rules for operators other than Add and Sub, which do not call each other, and the simplifying builder on top are left out; the builder beneath is the one that allocates nodes.
- Booleans.EqPartialRValue: the constant-array rewriting that may end the function is `ConstArrayOpt.TryConstArrayOpt`.
- ConstArrayOpt.TryConstArrayOpt: off by default, so it is modelled beside the equality constructor and not inside it; the arrays given to it are no longer than their index can address.
- Visitors.Visit: the memo table that returns an earlier result for the same term is left out, since a visitor is a function of the term.
- ObjectStates.ObjectState.Read: requires what the source asserts, that byte offsets computed from a symbolic offset do not fold to constants; `BuiltTerms.BuiltAccessible` shows it for every offset the constructors build. Out of bounds the value read is unspecified.
- ObjectStates.ObjectState.Copy: reference counts and destructors are left out, the bit masks are arrays of Booleans, and arrays are identified by a number and their contents instead of a pointer and a generated name.
- AddressSpaces.Run: read-only objects, `copyOutConcretes` and `copyInConcretes` are left out, and epochs do not wrap around at 32 bits.
- Resolution.Resolve: solver timeouts and failures are left out; any of the source's limits on the number of results is modelled.
- MemoryManagers.MemoryManager.Allocate: only deterministic mode; with wrap-around the invariant is not claimed and `HugeSizeOverlaps` shows why. The option to return nothing for requests of no bytes is left out.
- Exploration.Executor.Fork: seeds, replay of recorded paths, the options that concretise (`MaxStaticForkPct` and its kin) and solver time limits are left out; inhibited forking is a step of its own, `Exploration.Executor.Inhibit`.
- Exploration.Executor.BranchAmong: seeds are not redistributed.
- Exploration.Executor.TerminateState: halting in multi-cycle mode, replay warnings, seeds and path counters are left out.
- Exploration.EvenAfter: weights are exact reals, while the source halves a double, which is zero from some depth on.
- Exploration.ExecutionState.Branch: this state carries path condition, depth, weight and tree node; the one in `merging` carries stack, memory and path condition. Coverage fields and output streams are left out.
- ProcessTrees.PTree.SelectState: how a coin is taken from a 32-bit random word is left out; each coin is any value.
- Runs.Explore: what an instruction does to registers and memory is left out; each step is any condition, switch or end. Snapshot and cone-of-influence pruning are left out; pruning a state is an end.
- Merging.ExecutionState.Merge: the stack and path condition are set before memory, which makes no difference as they do not overlap; the weight of the merged state is not part of this model, as the source leaves it unchanged. Read-only objects that differ, on which the source asserts, are left out.
- Seeds.SeedInfo.PatchSeed: which reads a condition has is a function, where the source searches with a work list; reads in update lists are not searched there either. A byte read directly lies inside its array, as the source takes for granted.
- Distances.StatsTracker.ComputeMinDistToReturn: unbounded numbers, while the source keeps one local in 32 bits; the call targets are given, and how they are found for function pointers is left out.
- SmtPrinter.PrintMeaning: terms and not text; line breaks, indentation and the abbreviation mode that uses names of annotations are left out. Sizes of widths stay below 2^32.
- SmtAssert.AssertMeaning: any choice of named expressions is right; `SmtQueries.PrintQuery` makes the one `scan` makes.
- SmtScripts.ScriptMeaning: arrays of different contents have different names, and elements of constant arrays are wider than one bit and can be shown; the commands around the assertion are left out.
- LetLayers.ScanBindingExprDeps: like the source it looks at operands and not into update lists.
- CallPaths.CallPathManager.Summarize: one statistic stands for the whole record of statistics.
- KTests.File.FromFile: memory that runs out, including allocations of no bytes that may fail, is left out; a file is its bytes and a position.
- `ImpliedValue.cpp`, `ExprPPrinter.cpp`, cone of influence, snapshot pruning and multi-cycle replacement, the searchers other than the random-path one, special functions, floating point and external calls are left out.
