# Verified models of rUNSWift's FADBAD++ and of six robot algorithms

This project models, in Dafny 4.11, the parts of the rUNSWift robot code whose correctness is
hardest to see from the code, and proves what they are for. Numbers are exact reals and integers.

**FADBAD++ automatic differentiation.** Three templates compute derivatives of the same program.

* `badiff.h` records a reference-counted DAG and pushes adjoints backwards at the moment a node's
  count reaches zero. `BackwardStore` is the abstract machine of that sweep, `Adjoints` proves that
  it conserves the sum of adjoint times derivative, `Session` follows a user who makes variables,
  applies operators, copies, assigns and drops handles and calls `diff` in any order, and
  `Gradients` concludes what a variable holds when it may be read: the derivative. `Derivatives`
  and `BackwardTape` are the code in place, with its counts, cleared operand pointers, adjoint
  buffers and recycle bins; every method refines the abstract machine.
* `fadiff.h` is forward mode with a switch that skips operands depending on nothing. `Forward` has
  its formulas and proves the switch harmless; `ForwardNumber` is the heap-based number in place.
* `tadiff.h` fills Taylor coefficients lazily by convolution recurrences. `TaylorSeries` and
  `TaylorConstants` state them and prove the power-series laws over the ring laws of `Series`;
  `TaylorKernels` are the `eval` loops in place; `TaylorScratch` and `TaylorGraph` prove that
  repeated, interleaved evaluation equals evaluation from scratch, and that the ODE loop expands
  the solution.
* `Recording` gives a recorded computation its meaning: the value of each node and its derivative by
  the textbook rules. `Calculus` proves that these are derivatives in the sense of analysis, and
  unique. Forward, reverse and order-1 Taylor results are all proved equal to them
  (`Gradients.ReverseIsForward`, `TaylorTangent.TaylorIsForward`).

**Algorithms.** `FurthestFirst` and `KMeans` (clustering: a 4-approximation for the seeds, strict
descent and termination for the loop), `Bresenham` (accuracy, exact arrival and pointer agreement of
the line iterator), `LeastSquares` (optimality and bounds of the incremental line), `Whistle` (the
whistle consensus of a team over an unreliable network), `GroupLinks` (a link table with a square of
flags) and `Sonar` (rolling windows of pings).

Conventions. The library functions (square root, exponential, logarithm, sine, cosine) are fields of
`Ops.Lib` about which nothing is assumed; a law that needs an identity at order 0, or differentiability,
says so. Dividing by zero gives an arbitrary value, `Lib.overZero`; the laws assume non-zero divisors.
Nodes are indices in order of construction, so operands precede users. `eval(k)` may shorten a node:
calling it with a smaller k than before sets the length back to k + 1, and nothing is lost but work.
The seeding subset holds at least k points: with fewer the source takes a point from an exhausted
subset, which for k = 1 is empty from the start.

## Model

| member | source | states |
|---|---|---|
| Calculus.TangentsAreDerivatives | robot/FADBAD++/fadiff.h:282-1050 | for every recorded computation that divides by no zero, each node is differentiable in each leaf (with an error bound quadratic in the step), and the value of the derivative is the one the chain rules of the operators give |
| Calculus.DerivativeUnique | robot/FADBAD++/fadiff.h:179-185 | no two numbers are derivatives of one function, so the claim above pins the result |
| Calculus.DerivativeProduct | robot/FADBAD++/fadiff.h:491-499 | the product rule as a limit statement, for arbitrary functions |
| Calculus.DerivativeChain | robot/FADBAD++/fadiff.h:937-945 | the chain rule as a limit statement, for arbitrary functions |
| Calculus.DerivativeQuotient | robot/FADBAD++/fadiff.h:576-584 | the quotient rule as a limit statement, away from a zero divisor |
| Calculus.RationalSmooth | robot/FADBAD++/fadiff.h:282-945 | the rational operators and their constant-operand variants are differentiable, with the slopes of the rules, wherever nothing is divided by zero |
| Forward.DependSwitchIsDense | robot/FADBAD++/fadiff.h:339-349 | for + - * /, skipping whichever operands depend on nothing gives the value and every gradient entry of dense dual arithmetic with zero gradients |
| Forward.UnaryIsDense | robot/FADBAD++/fadiff.h:898-1050 | the same for the unary operators |
| Forward.UnGradIsSlope | robot/FADBAD++/fadiff.h:282-1050 | the gradient formula of each unary or constant-operand form is the slope times the operand's entry |
| Forward.BinGradIsRule | robot/FADBAD++/fadiff.h:331-584 | the gradient formulas for two dependent operands, in particular the rearranged one of division, are the two-operand chain rule |
| Forward.ForwardIsTangent | robot/FADBAD++/fadiff.h:194-1050 | running any recorded computation forward, entry c of every node is its derivative with respect to the leaf given column c, and its value is right |
| ForwardNumber.F.Diff | robot/FADBAD++/fadiff.h:194-211 | the gradient becomes the unit vector, reusing an existing array |
| ForwardNumber.F.ApplyUn | robot/FADBAD++/fadiff.h:282-1050 | the loops of the unary and constant-operand operators, in place, equal the formulas entry by entry |
| ForwardNumber.F.ApplyBin | robot/FADBAD++/fadiff.h:331-596 | the operators with their switch, in place, equal the formulas |
| ForwardNumber.F.PlusAssign | robot/FADBAD++/fadiff.h:703-718 | `x += y` equals `x + y` in value and gradient, also for `x += x` |
| ForwardNumber.F.MinusAssign | robot/FADBAD++/fadiff.h:719-734 | `x -= y` equals `x - y`, also for `x -= x` |
| ForwardNumber.F.TimesAssign | robot/FADBAD++/fadiff.h:735-753 | `x *= y` equals `x * y`, also for `x *= x`: the gradient is updated before the value |
| ForwardNumber.F.DivideAssign | robot/FADBAD++/fadiff.h:754-772 | `x /= y` equals `x / y` although the value is overwritten first, also for `x /= x`, where the gradient is zero |
| ForwardNumber.F.Assign | robot/FADBAD++/fadiff.h:146-165 | assignment keeps value and every derivative, an array without source gradient being cleared |
| ForwardNumber.SelfQuotient | robot/FADBAD++/fadiff.h:754-772 | for `x /= x` reading the new value of x instead of the old one still gives gradient zero |
| BackwardStore.UnPushIsSlope | robot/FADBAD++/badiff.h:402-1000 | each unary node pushes with the slope of its operator, using inverses and its own value as the code does |
| BackwardStore.BinPushIsSlope | robot/FADBAD++/badiff.h:390-664 | the same for both operands of the binary nodes |
| BackwardStore.ReleaseCounted | robot/FADBAD++/badiff.h:204-234 | giving up a reference, however far it cascades, keeps every count equal to handles plus operand slots in live nodes |
| BackwardStore.DyingHasNoUsers | robot/FADBAD++/badiff.h:204-234 | a node dies, and hands on its adjoints, only when no live node uses it any more |
| BackwardStore.ReleaseFrees | robot/FADBAD++/badiff.h:204-234 | a release leaves freed nodes freed, and neither creates nor hides a dying node |
| BackwardStore.ReleaseBelow | robot/FADBAD++/badiff.h:352-356 | a release touches no node constructed after the released one, which is why the recursion ends |
| Adjoints.PropagateTotal | robot/FADBAD++/badiff.h:394-398 | what a node hands to its operands, weighted by their derivatives, is its own adjoint weighted by its own |
| Adjoints.PushAllTotal | robot/FADBAD++/badiff.h:226-231 | a dying node, which also loses its adjoints, leaves the weighted sum unchanged |
| Adjoints.ReleaseConserves | robot/FADBAD++/badiff.h:204-234 | every release, with its whole cascade of propagate and recycle steps, conserves the sum of adjoint times derivative in every column |
| Session.StepInv | robot/FADBAD++/badiff.h:257-303 | construction, operators, copies, drops, assignments and `diff` all keep the counts exact, the adjoint vectors of one size, and nothing alive uncounted |
| Session.StepSum | robot/FADBAD++/badiff.h:278-287 | each action changes the weighted sum by exactly its gain: nothing, except that `diff` overwrites one adjoint with one |
| Session.StepRecords | robot/FADBAD++/badiff.h:257-518 | every action records exactly the node it says: a variable its scalar, an operator its class over its operands in their order, with the value of that operation on the operands' values, `diff` a fresh variable with the value of the old one; no node and no value that was there changes |
| Session.StepHandles | robot/FADBAD++/badiff.h:259-303 | a new node has one handle; copying adds one, dropping and `diff` take one away, assigning moves one, and no other count of handles changes |
| Session.TangentsFollow | robot/FADBAD++/badiff.h:390-1000 | the derivatives of a recording obey the very factors its nodes push with |
| Gradients.RunInv | robot/FADBAD++/badiff.h:204-303 | the invariant holds throughout every run of user actions |
| Gradients.RunRecords | robot/FADBAD++/badiff.h:257-518 | throughout every run the recording is the list of operations read off the actions so far, and its nodes have the values that the program computes statement by statement |
| Gradients.FreedForGood | robot/FADBAD++/badiff.h:207-217 | over every run a deleted node stays deleted: it is deleted and pushes at most once |
| Gradients.FreedHasNoUsers | robot/FADBAD++/badiff.h:207-217 | a deleted node has no handle and no live user left: every user released it first |
| Gradients.UnpinnedIsSwept | robot/FADBAD++/badiff.h:278-287 | when no handle pins an interior node, every interior node has been swept and deleted |
| Gradients.UnpinnedIsReadable | robot/FADBAD++/badiff.h:247-251 | then every variable with one handle passes the check before reading |
| Gradients.AdjointsConserved | robot/FADBAD++/badiff.h:204-303 | at every moment of every run the weighted sum is what the `diff` calls put in |
| Gradients.LiveIndependent | robot/FADBAD++/badiff.h:247-251 | when a variable has no reference but its handle (the check before reading), no other live node depends on it |
| Gradients.ReadIsSum | robot/FADBAD++/badiff.h:247-251 | then the variable holds the whole weighted sum, even if handles pin other nodes |
| Gradients.UnseededIsZero | robot/FADBAD++/badiff.h:89-99 | a column that no `diff` has named is zero in every node of every run |
| Gradients.ReverseIsTangent | robot/FADBAD++/badiff.h:247-251 | for every run that seeds a column once, a readable variable holds in it the derivative of the seeded output |
| Gradients.ReverseIsDerivative | robot/FADBAD++/badiff.h:247-251 | for every run of a program that seeds a column once, a readable variable holds the derivative, in the sense of analysis, of what the program says the seeded node is |
| Gradients.ReverseIsForward | robot/FADBAD++/badiff.h:247-251 | running the same program forward gives the seeded node the value the program computes and the gradient entry that the variable holds, shared subexpressions and x*x included |
| Derivatives.PopRecycle | robot/FADBAD++/badiff.h:51-58 | a buffer of the right size, from the top of the bin or new |
| Derivatives.DiffValues | robot/FADBAD++/badiff.h:89-99 | the named entry becomes one, the others keep what they had, or zero |
| Derivatives.AddValues | robot/FADBAD++/badiff.h:100-113 | entrywise addition into an existing buffer, or a copy into an obtained one |
| Derivatives.SubValues | robot/FADBAD++/badiff.h:114-127 | the same for subtraction |
| Derivatives.AddScaledValues | robot/FADBAD++/badiff.h:128-142 | the same with a factor |
| Derivatives.SubScaledValues | robot/FADBAD++/badiff.h:143-157 | the same with a negated factor |
| BackwardTape.UnForm | robot/FADBAD++/badiff.h:402-1000 | the overload and factor each unary node class calls come to the factor of the abstract machine |
| BackwardTape.BinForms | robot/FADBAD++/badiff.h:390-664 | the same for the binary classes |
| BackwardTape.Tape.Propagate | robot/FADBAD++/badiff.h:390-1000 | `propagate` in place refines the abstract push, and every buffer keeps one owner |
| BackwardTape.Tape.Recycle | robot/FADBAD++/badiff.h:80-85 | the buffer moves from the node to the bin |
| BackwardTape.Tape.PropagateChildren | robot/FADBAD++/badiff.h:352-380 | gives up each operand pointer once, first operand first, and clears it; every buffer keeps one owner |
| BackwardTape.Tape.DecRefIn | robot/FADBAD++/badiff.h:220-234 | `decRef` inside a sweep refines the abstract release; buffers end up in nodes or in the bin |
| BackwardTape.Tape.DecRef | robot/FADBAD++/badiff.h:204-219 | `decRef` without a bin refines it too, whichever bin an enclosing sweep holds |
| BackwardTape.Tape.Delete | robot/FADBAD++/badiff.h:357-384 | the destructor releases exactly the pointers that were not given up before, so none is released twice |
| BackwardTape.Tape.NewLeaf | robot/FADBAD++/badiff.h:291-294 | a fresh node with one handle; the invariant holds |
| BackwardTape.Tape.NewOp | robot/FADBAD++/badiff.h:347-376 | an operator node holds its operands, x*x holding x twice; its class, its pointers and its value, that of the operation on the values of the first and the second operand, are those asked for |
| BackwardTape.Tape.Copy | robot/FADBAD++/badiff.h:261 | one more handle |
| BackwardTape.Tape.Drop | robot/FADBAD++/badiff.h:262 | one handle less, with everything that follows from it |
| BackwardTape.Tape.Assign | robot/FADBAD++/badiff.h:264-272 | the handle moves, and nothing happens when it already is there |
| BackwardTape.Tape.Diff | robot/FADBAD++/badiff.h:278-287 | seeds the output, releases its handle and puts it on a fresh leaf, which has the value the variable had |
| BackwardTape.Tape.Deriv | robot/FADBAD++/badiff.h:247-251 | the stored adjoint, or zero without a buffer |
| Series.MulAssociates | robot/FADBAD++/tadiff.h:451-461 | truncated convolution is associative |
| Series.MulCommutes | robot/FADBAD++/tadiff.h:451-461 | and commutative |
| Series.ThetaProduct | robot/FADBAD++/tadiff.h:451-461 | x d/dx is a derivation of it |
| Series.MulCancels | robot/FADBAD++/tadiff.h:561-571 | a factor with non-zero order-0 coefficient can be cancelled |
| Series.ThetaEquationUnique | robot/FADBAD++/tadiff.h:917-929 | x y' = (x u') y has one solution for a given order-0 coefficient |
| TaylorSeries.MulIsProduct | robot/FADBAD++/tadiff.h:451-461 | MUL computes the convolution at every order |
| TaylorSeries.DivInvertsMul | robot/FADBAD++/tadiff.h:561-571 | DIV convolved with the divisor gives back the dividend at every order, and no other series does |
| TaylorSeries.Div1InvertsMul | robot/FADBAD++/tadiff.h:581-592 | DIV1 is DIV of a constant series, with the same law |
| TaylorSeries.SqrIsProduct | robot/FADBAD++/tadiff.h:850-863 | the half-length loop of SQR equals the full convolution, for odd and even orders |
| TaylorSeries.SqrtIsRoot | robot/FADBAD++/tadiff.h:883-897 | SQR of SQRT is the identity at every order, and the root with that order-0 coefficient is unique |
| TaylorSeries.ExpEquation | robot/FADBAD++/tadiff.h:917-929 | the recurrence of EXP says x e' = (x a') e |
| TaylorSeries.LogEquation | robot/FADBAD++/tadiff.h:949-962 | the recurrence of LOG says a (x l') = x a' |
| TaylorSeries.ExpOfLog | robot/FADBAD++/tadiff.h:917-962 | EXP undoes LOG at every order, given it does at order 0 |
| TaylorSeries.LogOfExp | robot/FADBAD++/tadiff.h:917-962 | LOG undoes EXP at every order, given it does at order 0 |
| TaylorSeries.ExpOfSum | robot/FADBAD++/tadiff.h:917-929 | EXP turns sums into products at every order |
| TaylorSeries.SinEquations | robot/FADBAD++/tadiff.h:983-1004 | the two recurrences of SIN are x s' = (x a') c and x c' = -(x a') s |
| TaylorSeries.SinCosAgree | robot/FADBAD++/tadiff.h:983-1046 | the cosine coefficients a SIN node hides are a COS node's values, and the other way round |
| TaylorSeries.SinCosPythagoras | robot/FADBAD++/tadiff.h:983-1046 | every coefficient of order 1 or more of sin^2 + cos^2 is zero |
| TaylorConstants.SubInvertsAdd | robot/FADBAD++/tadiff.h:340-349 | SUB undoes ADD at every order |
| TaylorConstants.RightConstant | robot/FADBAD++/tadiff.h:263-609 | ADD2, SUB2, MUL2 and DIV2 agree at every order with the two-operand nodes over a constant series |
| TaylorConstants.LeftConstant | robot/FADBAD++/tadiff.h:247-592 | ADD1, SUB1, MUL1 and DIV1 agree at every order with the two-operand nodes over a constant series |
| TaylorConstants.Signs | robot/FADBAD++/tadiff.h:684-719 | UMINUS subtracts from zero and undoes itself, UPLUS changes nothing |
| TaylorTangent.UnNextOne | robot/FADBAD++/tadiff.h:850-1046 | the order-1 coefficient of every unary operator is its forward gradient entry |
| TaylorTangent.BinNextOne | robot/FADBAD++/tadiff.h:233-571 | the same for the binary ones |
| TaylorTangent.TaylorIsTangent | robot/FADBAD++/tadiff.h:233-1046 | evaluated to order 1 along one leaf, every node of every recording holds its value and its derivative |
| TaylorTangent.TaylorIsForward | robot/FADBAD++/tadiff.h:233-1046 | which is what forward differentiation computes |
| TaylorKernels.EvalADD | robot/FADBAD++/tadiff.h:237-242 | the loop continues from the current length and ends with the coefficients from scratch |
| TaylorKernels.EvalSUB | robot/FADBAD++/tadiff.h:344-349 | the same |
| TaylorKernels.EvalShift | robot/FADBAD++/tadiff.h:252-258 | the same, for adding or subtracting a constant, which touches order 0 only |
| TaylorKernels.EvalMUL | robot/FADBAD++/tadiff.h:451-461 | the same, with its inner loop |
| TaylorKernels.EvalPointwise | robot/FADBAD++/tadiff.h:471-476 | the same, for operators that act on each coefficient alone |
| TaylorKernels.EvalDIV | robot/FADBAD++/tadiff.h:561-571 | the same, the inner loop reading coefficients it has just written |
| TaylorKernels.EvalDIV1 | robot/FADBAD++/tadiff.h:581-592 | the same |
| TaylorKernels.EvalSQR | robot/FADBAD++/tadiff.h:850-863 | the same |
| TaylorKernels.EvalSQRT | robot/FADBAD++/tadiff.h:883-897 | the same |
| TaylorKernels.EvalEXP | robot/FADBAD++/tadiff.h:917-929 | the same |
| TaylorKernels.EvalLOG | robot/FADBAD++/tadiff.h:949-962 | the same |
| TaylorKernels.EvalSIN | robot/FADBAD++/tadiff.h:983-1004 | the same, filling both arrays |
| TaylorKernels.EvalCOS | robot/FADBAD++/tadiff.h:1025-1046 | the same, filling both arrays |
| TaylorScratch.ScratchCausal | robot/FADBAD++/tadiff.h:451-461 | coefficients below order n depend on a leaf only below order n, and not at all in nodes not computed from it |
| TaylorScratch.ScratchPrefix | robot/FADBAD++/tadiff.h:84-86 | evaluating further leaves the lower coefficients as they were |
| TaylorScratch.ExtendsSolution | robot/FADBAD++/examples/ExampleTAD2.cpp:18-22 | the assignment x[i+1] = xp[i]/(i+1) extends a solution of x' = f(x) by one order |
| TaylorScratch.ODEUnique | robot/FADBAD++/examples/ExampleTAD2.cpp:18-22 | the formal solution with a given start is unique |
| TaylorGraph.Graph.Eval | robot/FADBAD++/tadiff.h:233-242 | `eval(k)` on a shared DAG in any state: every coefficient below every length is the one from scratch, the node has k + 1 of them, and no other length grows beyond that |
| TaylorGraph.Graph.Write | robot/FADBAD++/tadiff.h:140 | writing a leaf at an index that no dependant has used keeps all of that true |
| TaylorGraph.Graph.Reset | robot/FADBAD++/tadiff.h:201-227 | sets to zero the lengths of a node and of all it is computed from, and no others |
| TaylorGraph.Graph.NewVariable | robot/FADBAD++/tadiff.h:119 | a variable without a value starts with no coefficient and keeps the graph sound |
| TaylorGraph.Graph.NewConstant | robot/FADBAD++/tadiff.h:122 | a variable made from a scalar is the complete constant series |
| TaylorGraph.Graph.NewOperation | robot/FADBAD++/tadiff.h:278-285 | an operator node is born with its order-0 coefficient exactly when its operands have theirs, and it is right |
| TaylorGraph.Graph.SolveODE | robot/FADBAD++/examples/ExampleTAD2.cpp:18-22 | the loop leaves in x the formal solution of x' = f(x) to order K, from the given x[0] |
| FurthestFirst.Distance | robot/utils/Cluster.cpp:22-35 | the loop computes the squared distance |
| FurthestFirst.DistRelaxed | robot/utils/Cluster.cpp:22-35 | twice the sum of two squared distances bounds the third, in place of a triangle inequality |
| FurthestFirst.FurthestIndex | robot/utils/Cluster.cpp:188-206 | the double loop finds the first of the points furthest from the centres so far |
| FurthestFirst.ChooseCentres | robot/utils/Cluster.cpp:181-209 | k picks, made furthest first, which with what is left are the subset |
| FurthestFirst.FourApproximation | robot/utils/Cluster.cpp:181-209 | for k picks in a given space: whatever k centres cover the subset within rho, the picks cover it within 4 rho, if and only if k is 1 or no two points of the space have a squared distance between FAR, where the search for a minimum starts, and 4 rho |
| FurthestFirst.FarWithinIf | robot/utils/Cluster.cpp:191-204 | there are no such points when 4 rho is below FAR, and in every space of dimension 1 or more there are when it is above |
| KMeans.MeansAreBest | robot/utils/Cluster.cpp:111-140 | for a given partition no centres have a lower total squared distance than the means |
| KMeans.PassLowersCost | robot/utils/Cluster.cpp:263-293 | a pass that moves a point strictly lowers the total squared distance to the means |
| KMeans.NoPartitionRepeats | robot/utils/Cluster.cpp:247-299 | over any number of passes no partition comes back |
| KMeans.FewerCheaper | robot/utils/Cluster.cpp:247-299 | the number of cheaper partitions shrinks: the termination measure |
| KMeans.InverseAfterSeeding | robot/utils/Cluster.cpp:212-227 | after seeding, which clears nothing, the two maps are inverse if and only if the seeds, which the subset decides, put every earlier member back into its old cluster |
| KMeans.RedoBreaksInverse | robot/utils/Cluster.cpp:251-255 | a concrete redo after which one point is a member of two clusters |
| KMeans.Clusters.ComputeCentroids | robot/utils/Cluster.cpp:111-140 | succeeds exactly when no cluster is empty, and then the centroids are the means |
| KMeans.Clusters.SFFPartitionPoints | robot/utils/Cluster.cpp:162-229 | seeds furthest first, allocates each point to the first nearest centroid, says where points go that are too far for the search, and when the two maps are inverse afterwards |
| KMeans.Clusters.Reassign | robot/utils/Cluster.cpp:263-293 | every point ends at a nearest centroid, stays if it was at one, and the maps stay inverse |
| KMeans.Clusters.KMeans | robot/utils/Cluster.cpp:234-300 | ends; converges unless a cluster becomes empty, and then centroids are means and every point is at a nearest one |
| Bresenham.HalfCell | robot/utils/BresenhamPtr.hpp:69-107 | in all octants, after k steps the cell is k along the major axis and within half a cell of the true line |
| Bresenham.HalvesGoOn | robot/utils/BresenhamPtr.hpp:69-107 | where the line passes midway between two cells the one further along is taken |
| Bresenham.StaysInBox | robot/utils/BresenhamPtr.hpp:69-107 | every cell up to the end lies in the bounding box of the end points |
| Bresenham.ArrivesAtEnd | robot/utils/BresenhamPtr.hpp:69-107 | the iterator is at the end point after as many steps as the longer side |
| Bresenham.PointerMeetsEnd | robot/utils/BresenhamPtr.hpp:109-116 | with both end points inside a row, the pointer equals the end pointer at that step and at no earlier one |
| Bresenham.NextCell | robot/utils/BresenhamPtr.hpp:69-107 | how cell, address and balance move from step k to k + 1: diagonally exactly when the balance is not negative |
| Bresenham.BalanceBounds | robot/utils/BresenhamPtr.hpp:69-107 | the balance stays between twice the difference of the axes and twice the minor one, so that sides below 2^30 cannot overflow 32 bits |
| Bresenham.Iterator.Next | robot/utils/BresenhamPtr.hpp:69-107 | operator++ keeps pointer, point and balance those of the closed form |
| Bresenham.BresenhamPtr.Begin | robot/utils/BresenhamPtr.hpp:167-170 | begin() is at step 0 |
| LeastSquares.LeastSquaresLine.AddPoint | robot/utils/LeastSquaresLineInline.hpp:1-9 | the six sums of one more point |
| LeastSquares.LeastSquaresLine.RemovePoint | robot/utils/LeastSquaresLineInline.hpp:11-19 | the six sums without it |
| LeastSquares.LeastSquaresLine.GetLineABC | robot/utils/LeastSquaresLine.cpp:16-58 | computes the specified line, or reports that there is none |
| LeastSquares.SumsOfHistory | robot/utils/LeastSquaresLineInline.hpp:1-19 | after any history that removes only what was added, the sums are those of the multiset that is left |
| LeastSquares.RunSums | robot/utils/LeastSquaresLineInline.hpp:1-19 | the same call by call: however addPoint and removePoint are interleaved on a new object, its fields end as the sums of the points that are left |
| LeastSquares.DeterminantIsPairs | robot/utils/LeastSquaresLine.cpp:34-35 | the determinant is the sum over all pairs of their squared distance |
| LeastSquares.NoLineIffCoincident | robot/utils/LeastSquaresLine.cpp:37-39 | there is no line exactly when all points coincide or there are none |
| LeastSquares.NonDegenerate | robot/utils/LeastSquaresLine.cpp:50-58 | otherwise a and b are not both zero: b is minus the spread of the x, or a minus that of the y, whichever is greater, which with the normal equations fixes all three |
| LeastSquares.NormalEquations | robot/utils/LeastSquaresLine.cpp:50-58 | a, b, c solve both normal equations of the regression that was chosen |
| LeastSquares.LeastSquaresOptimal | robot/utils/LeastSquaresLine.cpp:50-58 | the line has the least squared y-errors, or x-errors, of all real lines of its form |
| LeastSquares.NoOverflow | robot/utils/LeastSquaresLine.cpp:27-58 | if the running sums fit 32 bits, whatever they are, no 64-bit intermediate overflows |
| Whistle.Ticked | robot/gamecontroller/GameController.cpp:68-160 | after a tick the published state is the official one, or PLAYING while that is SET, and the robot knows the colour of its own team |
| Whistle.CountIs | robot/gamecontroller/GameController.cpp:120-129 | the loop counts the teammates that are not incapacitated, and those of them that say PLAYING |
| Whistle.AgreementThreshold | robot/gamecontroller/GameController.cpp:119-146 | the team agrees exactly when one active teammate plays of at most three, or two of four or more |
| Whistle.TwoAgree | robot/gamecontroller/GameController.cpp:119-146 | then two different active teammates said that they play |
| Whistle.TickStaysQuiet | robot/gamecontroller/GameController.cpp:68-160 | a robot that has heard of nobody playing enters PLAYING in no way but the three causes |
| Whistle.OfficialPlaying | robot/gamecontroller/GameController.cpp:119-146 | a robot enters PLAYING officially only on a packet, its button, or in SET, near the centre and acting on whistles, when the team agrees |
| Whistle.PlayingSticks | robot/gamecontroller/GameController.cpp:304-349 | while packets that do not penalise it still say SET, a robot stays in PLAYING if and only if each of them is looked up right, or the last one is and the team puts it back in the same tick |
| Whistle.PenalisedNeverPlays | robot/gamecontroller/GameController.cpp:304-350 | a robot that its last valid packet penalises, and whose button is not pushed, is in no sense in PLAYING if and only if the penalty is looked up right, or the packet says neither PLAYING nor SET, or it says SET and nothing else makes the robot play; looked up right, it also tells apart penalties served in SET |
| Whistle.PenaltyShown | robot/gamecontroller/GameController.cpp:304-350 | a valid packet shows a robot as penalised exactly when it penalises the robot, if and only if the penalty is looked up right (the packet gives the team the colour the robot last knew, or treats both players of its number alike) or, when the packet's own state byte already says penalised, if it does penalise the robot |
| Whistle.ColourChangeMisreads | robot/gamecontroller/GameController.cpp:304-350 | two concrete ticks with a packet that changes the colours: one takes a robot without a penalty out of PLAYING, the other lets a penalised robot play; the lookup uses the colour of the tick before |
| Whistle.CausesWork | robot/gamecontroller/GameController.cpp:68-160 | pushed or whistled into PLAYING, a robot publishes it in the same tick |
| Whistle.ParsedTakesOver | robot/gamecontroller/GameController.cpp:304-350 | a packet with another header, version or game changes nothing; any other replaces both teams with all their penalties, the blue one first, and the robot shows its penalty or the state of the packet, which does not take back PLAYING by SET |
| Whistle.ButtonSwitches | robot/gamecontroller/GameController.cpp:218-236 | the button takes a waiting or playing robot out of the game and any other into it, keeps its own penalty in step and changes nothing else; pushed twice, it ends on the other side |
| Whistle.TickTakesOver | robot/gamecontroller/GameController.cpp:68-94 | after a tick the robot holds the teams of the last valid packet, or else those it had, apart from its own penalty when the button was pushed |
| Whistle.PenalisedDoNotCount | robot/receiver/Team.cpp:57-82 | right after a tick, a message makes a teammate active exactly when the last packet does not penalise it, whatever the colours were before, and it is not resting; the other entries stay |
| Whistle.OthersIgnored | robot/receiver/Team.cpp:57-61 | messages of other teams and of players a team does not have are not stored |
| Whistle.SilentDoNotCount | robot/receiver/Team.cpp:106-113 | after the silence check exactly those are active who were and spoke in the last three seconds; what they said is kept |
| Whistle.ConsensusPlays | robot/gamecontroller/GameController.cpp:96-160 | a robot in SET ends its tick in PLAYING if and only if it is near the centre, acts on whistles and at least 30 percent of its active teammates say PLAYING; it publishes PLAYING if and only if that holds, or it did before, or it acts on a whistle |
| Whistle.WhistleSpreads | robot/gamecontroller/GameController.cpp:119-146 | over three team steps, transmit, receive and tick: the hearer plays if and only if the 30 percent are reached with the sender counted, which with three active teammates they always are |
| Whistle.StepsAreLocal | robot/transmitter/Team.cpp:54-64 | a team step changes one robot, or adds one broadcast; messages do not touch the game state, ticks do not touch what was heard |
| Whistle.AgreementIsFresh | robot/receiver/Team.cpp:106-113 | right after the silent are marked, the team agrees only if a teammate said within the last three seconds that it plays |
| Whistle.PlayingHasCause | robot/gamecontroller/GameController.cpp:68-160 | over whole team runs with lost, delayed and duplicated messages: if some robot publishes PLAYING, then earlier some robot was told to play, pushed into PLAYING, or heard a whistle in SET and acts on it |
| Whistle.HeardWasSent | robot/receiver/Team.cpp:57-82 | in every team run, the PLAYING that a robot holds of player k + 1 was broadcast by that player of its team |
| Whistle.SentWasPublished | robot/transmitter/Team.cpp:54-64 | whatever was broadcast as PLAYING was published before by the robot it names |
| Whistle.ConsensusWasSaid | robot/gamecontroller/GameController.cpp:119-146 | when a robot enters PLAYING officially without a packet or its button, a player of its team published PLAYING before; with four or more active teammates, two different ones did |
| Whistle.TeamCoherent | robot/gamecontroller/GameController.cpp:145-160 | in every team run each robot's published state is coherent from its first tick on |
| Whistle.Controller.ParseData | robot/gamecontroller/GameController.cpp:304-350 | refines the specified effect of a packet (ParsedTakesOver) |
| Whistle.Controller.ButtonUpdate | robot/gamecontroller/GameController.cpp:218-236 | refines the specified effect of the button (ButtonSwitches) |
| Whistle.Controller.CountTeammates | robot/gamecontroller/GameController.cpp:120-129 | the loop returns the number of active teammates and of those of them that say PLAYING |
| Whistle.Controller.Tick | robot/gamecontroller/GameController.cpp:68-160 | refines the specified tick |
| Whistle.Controller.NaoHandler | robot/receiver/Team.cpp:57-82 | stores a teammate's state and incapacitation, for valid player numbers of the own team |
| Whistle.Controller.ReceiverTick | robot/receiver/Team.cpp:106-113 | marks who has been silent for more than three seconds, and nobody else |
| GroupLinks.GroupLinks.NewGroup | robot/types/GroupLinks.hpp:35-48 | appends a group linked to itself unless the table is full; flags and lists agree |
| GroupLinks.GroupLinks.AddLink | robot/types/GroupLinks.hpp:60-80 | appends a link exactly when it is new and there is room; flags and lists agree, lists stay free of duplicates |
| GroupLinks.GroupLinks.ClearHigh | robot/types/GroupLinks.hpp:87-98 | leaves a group its link to itself; flags and lists agree |
| GroupLinks.GroupLinks.FullReset | robot/types/GroupLinks.hpp:110-124 | leaves the empty table, every flag cleared |
| GroupLinks.GroupLinks.FlagsFollow | robot/types/GroupLinks.hpp:60-80 | setting one flag and appending one link keeps flags and lists in agreement |
| GroupLinks.GroupLinks.OnlyItself | robot/types/GroupLinks.hpp:87-98 | clearing the flags of a row from its second link on leaves exactly the first |
| Sonar.Rolled | robot/motion/SonarRecorder.cpp:75-82 | appending readings and erasing the oldest contribution leaves the concatenation of the last four |
| Sonar.FilteredInRange | robot/motion/SonarRecorder.cpp:55-73 | exactly the readings below the maximum are kept, in their order, and each becomes its distance of 250 to 2499 millimetres |
| Sonar.MillimetresRounds | robot/motion/SonarRecorder.cpp:55-73 | whole millimetres, rounded down but not below 250, and never out of order |
| Sonar.PartsGrow | robot/motion/SonarRecorder.cpp:74-109 | by ping numbers alone: pings 0 mod 3 go left with the left readings, 2 mod 3 right with the right ones, 1 mod 6 to the middle with the right ones and 4 mod 6 with the left ones, each in order |
| Sonar.SonarRecorder.Update | robot/motion/SonarRecorder.cpp:30-46 | every tenth call after the first processes a ping and requests the next command in turn; each window is the in-order concatenation of the readings of its last pings, four at most, which ones by their numbers |
| Sonar.SonarRecorder.ProcessUpdate | robot/motion/SonarRecorder.cpp:49-117 | the p-th ping belongs to command p mod 6 |
| Sonar.SonarRecorder.Filter | robot/motion/SonarRecorder.cpp:55-73 | the readings in range, in order, in millimetres |

## Left out

- Floating-point rounding, NaN and overflow; the real transcendental functions enter as parameters.
- `pow`, tan, asin, acos and atan of the three templates, and the files under robot/FADBAD++/extra.
- tadiff.h's DIFF operator, which reads ahead in its operand, and the reference counts of its nodes.
- The stack-based `FTypeName<T,N>`: same formulas, fixed arrays; its `*=` and `/=` with two independent operands read unset entries.
- badiff.h's references handed out by `diff`, `d` and `x`: a variable's value is never changed through them after it has been used, and all `diff` calls agree on one size.
- BackwardTape.Tape.NewOp: nodes are indices into growing lists, so the addresses of nodes, and the memory a deleted node gives back, are not modelled.
- BackwardTape.Tape.Diff: makes the fresh leaf after the release instead of before it; a release does not touch later nodes.
- ForwardNumber.F.DivideAssign: a zero divisor is left out where the order of operations makes the meaningless entries differ from those of `x / y`: when the divisor depends on something and is x itself, or x depends on nothing.
- TaylorGraph.Graph.Write: writes at indices that a dependant has already used are left out; the code then keeps stale coefficients.
- KMeans.Clusters.KMeans: stops with false where the source redoes the partition; the random subset is an input, and may be any list of points.
- KMeans.Clusters.SumOfCluster: walks the point numbers in ascending order, which is the order of a std::set.
- Whistle.Ticked: whether the robot is near the centre circle is an input, and the ratio of teammates is compared exactly, which for at most six gives the same answer as the code's floats.
- The overflow scaling of the fitted line (robot/utils/LeastSquaresLine.cpp:60-75), and 32-bit wrap-around of the running sums.
- Bresenham.BresenhamPtr.constructor: assumes a positive row width and no 32-bit wrap-around of coordinates.
- Sockets, polling, speech, whistle files, logging and configuration; what they deliver are inputs of the model. Teammates' messages are taken to be authentic.
- GroupLinks.GroupLinks.AddLink: assumes the linked value is a number below MAX_GROUPS, as its callers do.
- The libagent and AgentEffector shared buffers, camera code, serialization, and the clip and interpolation generators.
