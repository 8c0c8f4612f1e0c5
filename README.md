# IC — evolutionary computation engine, modelled in Dafny

This project models the core of **IC**, a Java library of evolutionary
algorithms. It covers:

- the genes (`Caracteristica` and its binary, integer, permutation and real
  loci);
- the individuals (`Ser`, `SerFixo` and the binary, integer, permutation and
  real individuals);
- the environment (`Ambiente`), which evaluates individuals and compares them
  with a maximisation or minimisation order;
- the ordered population (`Populacao`, a `TreeSet` under that order);
- random index sampling (`IndiceAleatorio`) and the binary helpers
  (`Binarios`);
- the operators: the generator (`Gerador`), the mutators (bit flipping,
  random resetting, swap), the selector (`Seletor`), the crossovers of
  `Recombinador` (one point, one point without repetition, discrete), PMX,
  and the real crossovers of `RecombinadorReal`;
- differential evolution: the `Best` mutator, the binomial recombiner and the
  `DE` iteration;
- the algorithm drivers: `AlgoritmoEvolucionario` (both packages),
  `AlgoritmoPopulacional` and `AGSimples`.

Objects whose fields the Java code updates in place are Dafny classes:

- `Genes.Locus`: one class for every locus kind, with a `Value` datatype
  naming the Java class;
- `Beings.Ser`;
- `Population.Populacao`;
- the operators and the algorithms.

Their methods carry `modifies` clauses and state the new state in full. Each
such method is specified against ghost functions of the old state (for
example `Crossovers.OnePoint`, `Pmx.PmxChild`, `Reals.Simple`,
`Mutators.Genomes`). The properties the library promises are proved as
lemmas about those functions:

- children are permutations;
- the blend stays inside the bounds;
- flipping all bits twice restores the genome;
- consecutive ids are distinct;
- the population stays ascending and duplicate-free.

Java exceptions are the `Errors.Exception` kinds. Every operation that can
throw returns a `Result` or an `Outcome` and states exactly when it throws.
`int` overflow is written out with `Errors.Wrap32` and `Errors.Succ32`: the
iteration counters, the stored bounds and an individual's age wrap as Java
`int`s do. The 64-bit id counter is the one exception (see "Left out"). Randomness is a
nondeterministic choice inside a method; the contracts hold for every draw.

## Model

| member | source | states |
|---|---|---|
| Genes.NewReal | src/ic/ce/seres/reais/LocusReal.java:72-96 | the checking constructor succeeds exactly when lower <= upper and the value is null or in [lower, upper); it fails with IllegalArgument otherwise; on success it stores the value and both bounds, and the result can be copied |
| Genes.NewRealUnbounded | src/ic/ce/seres/reais/LocusReal.java:55-57 | the one-argument constructor uses the bounds [-Double.MAX_VALUE, Double.MAX_VALUE) and accepts exactly the values inside them |
| Genes.MaxDoubleRefused | src/ic/ce/seres/reais/LocusReal.java:55-57 | the exclusive upper bound refuses Double.MAX_VALUE itself and accepts -Double.MAX_VALUE |
| Genes.WithBit | src/ic/ce/seres/binarios/LocusBinario.java:50-52 | setting a bit keeps the locus class and makes the stored bit exactly the argument |
| Genes.Flipped | src/ic/ce/seres/binarios/LocusBinario.java:59-61 | a flip keeps the locus class and negates the bit |
| Genes.FlipInvolution | src/ic/populacional/seres/binarios/LocusBinario.java:34-36 | flipping twice restores the locus, and one flip always changes it |
| Genes.BitValor | src/ic/ce/seres/binarios/LocusBinario.java:69-71 | getValor is 1 for true and 0 for false, and throws NullPointer exactly for a null bit |
| Genes.Locus.constructor | src/ic/populacional/seres/inteiros/LocusInteiro.java:38-40 | a new locus holds the given value and has no owner |
| Genes.Locus.SetSer | src/ic/populacional/Caracteristica.java:69-73 | setSer succeeds exactly when the gene is unowned or already owned by the same individual, otherwise throws IllegalState and keeps the owner; an owner once set never changes |
| Genes.Locus.Copia | src/ic/ce/seres/reais/LocusReal.java:161-163 | copia fails exactly when the value cannot be rebuilt (a real value out of its bounds, or a null primitive bit); on success it returns a fresh unowned locus with the same value |
| Genes.Locus.GetBit | src/ic/populacional/seres/binarios/LocusBinario.java:21-23 | getBit returns the stored bit; the primitive getter of ic.populacional throws NullPointer exactly on a null bit |
| Genes.Locus.SetBit | src/ic/ce/seres/binarios/LocusBinario.java:50-52 | stores any bit, null included, and getBit then returns it |
| Genes.Locus.Flip | src/ic/ce/seres/binarios/LocusBinario.java:59-61 | flip succeeds exactly on a non-null bit and negates it; a null bit throws NullPointer and stays unchanged |
| Genes.Locus.SetRepresentacaoNumerica | src/ic/populacional/seres/inteiros/LocusInteiro.java:47-49 | overwrites the integer or permutation value, unchecked, keeping the locus class |
| Genes.Locus.SetValor | src/ic/ce/seres/reais/LocusReal.java:110-115 | setValor accepts exactly null or a value in [lower, upper) and stores it; otherwise it throws IllegalArgument and keeps the old value; an admissible locus stays admissible |
| Genes.Locus.Maximixa | src/ic/ce/seres/reais/LocusReal.java:122-124 | maximixa stores a value below the upper bound, without a range check; it is admissible whenever the range is non-empty |
| Genes.Locus.Minimiza | src/ic/ce/seres/reais/LocusReal.java:131-133 | minimiza stores the lower bound; the locus is then admissible exactly when lower < upper |
| Genes.LocusEquals | src/ic/ce/seres/reais/LocusReal.java:171-176 | equals throws exactly for a real locus with a null value compared with a real locus; otherwise it compares values after the class test, and binary loci compare by identity |
| Genes.CompareTo | src/ic/populacional/seres/inteiros/LocusInteiro.java:57-59 | compareTo throws exactly when a real value is null and otherwise returns -1, 0 or 1 by value |
| Genes.CompareToConsistent | src/ic/populacional/seres/permutacoes/LocusPermutacao.java:39-48 | compareTo of integer and permutation loci is 0 exactly when equals holds, and it is antisymmetric |
| Genes.CopyEquality | src/ic/populacional/Caracteristica.java:100-109 | a copy equals its original, except for binary loci, whose identity equals makes every copy unequal |
| Beings.IdCounter.constructor | src/ic/populacional/Ser.java:85 | the static id counter starts at 0 |
| Beings.GenomeOf | src/ic/populacional/Ser.java:129 | the genome has one entry per gene slot: None for an empty slot, else the gene's value |
| Beings.Overwrite | src/ic/populacional/Ser.java:261-266 | writing a list from position `at` keeps the length, replaces exactly the positions at..at+|xs|, and keeps every other slot |
| Beings.Ser.Slots | src/ic/ce/seres/SerFixo.java:62-67 | a new individual takes the counter's value as its id and advances the counter by one; it has age 0, no fitness, no evaluator and n empty slots |
| Beings.Ser.SetIdade | src/ic/populacional/Ser.java:170-175 | setIdade succeeds exactly for a non-negative age and stores it; a negative age throws IllegalArgument and keeps the old age |
| Beings.Ser.Envelhece | src/ic/populacional/Ser.java:183-185 | envelhece is `++idade` on a Java `int`: it adds one year and returns the new age, except that an age of Integer.MAX_VALUE wraps round to Integer.MIN_VALUE |
| Beings.Ser.SetCaracteristica | src/ic/populacional/Ser.java:209-215 | succeeds exactly on an unevaluated individual, a non-null gene that setSer accepts and an index in range; it then stores the gene at the index (and nothing else) bound to this individual; otherwise it throws IllegalState, NullPointer or IndexOutOfBounds in the source's order, and a bad index leaves the gene already bound |
| Beings.Ser.SetCaracteristicasAt | src/ic/populacional/Ser.java:261-266 | origem[k] is stored at indice + k in order, up to the first refused write; it succeeds exactly when every gene is stored; the written prefix is bound to this individual; the error kinds are those of setCaracteristica |
| Beings.Ser.SetCaracteristicas | src/ic/populacional/Ser.java:227-231 | the list's genes go to positions 0, 1, ... up to the first refused write, and the list is stored whole exactly when it fits and every gene is accepted |
| Beings.Ser.SetCaracteristicaCopia | src/ic/populacional/Ser.java:246-248 | succeeds exactly when the source gene is non-null and copyable, the individual unevaluated and the index in range; it stores a fresh copy bound to this individual; on failure the slots are unchanged |
| Beings.Ser.SetCaracteristicasCopia | src/ic/populacional/Ser.java:277-282 | on success the slots from indice on hold fresh, owned copies of origem, in order; on failure the copies made before the refused element (fewer than all of origem) stay written from indice on and the other slots are unchanged |
| Beings.Ser.SetCaracteristicasCopiaRange | src/ic/populacional/Ser.java:297-302 | subList's checks come first: a bound out of range throws IndexOutOfBounds and inverted bounds throw IllegalArgument, both with the slots unchanged; on success the slots hold copies of origem[inicio..fim]; once the bounds pass, a failing copy leaves the copies made before it written from indice on and the other slots unchanged |
| Beings.Ser.GetCaracteristicasCopia | src/ic/populacional/Ser.java:332-339 | succeeds exactly when every slot holds a copyable gene, and returns distinct, fresh, unowned copies of the genes in order |
| Beings.Ser.GetCaracteristica | src/ic/populacional/Ser.java:352-354 | returns the gene at the index, and throws IndexOutOfBounds exactly for an index out of range |
| Beings.Ser.SetGrauDeAdaptacao | src/ic/populacional/Ser.java:405-408 | the fitness is always stored; a null evaluator then throws NullPointer and keeps the old evaluator, otherwise it becomes the evaluator |
| Beings.Ser.IsAvaliadoPor | src/ic/populacional/Ser.java:454-457 | false while no evaluator is stored; true only for the stored evaluator |
| Beings.NewSerFixo | src/ic/ce/seres/SerFixo.java:62-67 | always advances the id counter by one; succeeds exactly for n > 0, with the old counter value as id; otherwise throws IllegalArgument |
| Beings.NewSerFixoFrom | src/ic/ce/seres/SerFixo.java:85-88 | always advances the id counter; succeeds exactly when every gene of the list is non-null and unowned, and then every gene is owned by the new individual, in list order |
| Environment.Ambiente.Default | src/ic/populacional/Ambiente.java:106-110 | the default environment maximises with the given objective |
| Environment.Ambiente.constructor | src/ic/populacional/Ambiente.java:118-130 | the environment keeps the mode it was given |
| Environment.Ambiente.Compara | src/ic/populacional/Ambiente.java:263-279 | compara orders by fitness (the stored one when this environment evaluated the individual, a fresh one otherwise) and then by id; it gives 0 only for an individual with itself or equal keys, and a positive result exactly when the first key is larger |
| Environment.Ambiente.CompareIsBetter | src/ic/populacional/Ambiente.java:118-130 | compare is exactly the lexicographic (fitness, id) order, larger first when maximising and smaller first when minimising, and 0 only for the same individual |
| Environment.Ambiente.CompareAntisymmetric | src/ic/populacional/Ambiente.java:239-241 | compare is antisymmetric, and the inverse comparator is compare with its operands swapped |
| Environment.Ambiente.CompareTransitive | src/ic/populacional/Ambiente.java:227-229 | compare is transitive, so the TreeSet order is a strict order |
| Environment.Ambiente.CompareTotal | src/ic/populacional/Ambiente.java:227-229 | two distinct individuals are always ordered one way or the other |
| Environment.Ambiente.Evaluate | src/ic/populacional/Ser.java:418-421 | setGrauDeAdaptacao(ambiente) stores avalia(s) as the fitness and this environment as the evaluator, without changing the fitness compara sees |
| Environment.Ambiente.AvaliaTodos | src/ic/populacional/Ambiente.java:202-204 | afterwards every individual is evaluated by this environment; those already evaluated keep their fitness and evaluator, and no fitness seen by compara changes |
| Environment.CompareFitness | src/ic/populacional/algoritmo/AlgoritmoPopulacional.java:168 | a positive result exactly when the first fitness is the better one in the mode; the result is in -1..1 |
| Environment.CompareFitnessAntisymmetric | src/ic/populacional/algoritmo/AlgoritmoPopulacional.java:168 | the fitness comparison is antisymmetric and 0 on equal values |
| Population.Filter | src/ic/populacional/Populacao.java:595-597 | keeps, in order, exactly the members whose membership in the collection is the requested one |
| Population.FilterAscending | src/ic/populacional/Populacao.java:634-636 | removing members from an ascending sequence leaves it ascending |
| Population.Populacao.constructor | src/ic/ce/populacional/PopulacaoOrdenada.java:72-75 | a new population is empty, with the given environment as comparator and the given maximum |
| Population.Populacao.Size | src/ic/populacional/Populacao.java:337-339 | size is the number of members |
| Population.Populacao.IsEmpty | src/ic/populacional/Populacao.java:445-447 | isEmpty holds exactly when there are no members |
| Population.Populacao.ContainsIsMembership | src/ic/populacional/Populacao.java:479-481 | with unique ids, the comparator lookup of contains finds exactly the member instances |
| Population.Populacao.AscendingDistinct | src/ic/ce/populacional/PopulacaoOrdenada.java:74 | the sorted set holds no member twice |
| Population.Populacao.Add | src/ic/populacional/Populacao.java:246-249 | add keeps the set ascending and inserts s exactly when it is not already a member (the multiset grows by s); otherwise the members are unchanged |
| Population.Populacao.InsertAt | src/ic/populacional/Populacao.java:248 | the insertion puts s at its sorted position and keeps the set ascending |
| Population.Populacao.InsertAscending | src/ic/populacional/Populacao.java:248 | inserting s before the first member not below it keeps the order strict |
| Population.Populacao.AddAll | src/ic/populacional/Populacao.java:211-214 | addAll evaluates the collection (members already evaluated keep their fitness), then the members are the old ones plus the collection, still ascending; it reports a change exactly when some element was new |
| Population.Populacao.InsertAll | src/ic/populacional/Populacao.java:213 | the tree's addAll adds each element in turn: the result is the union, ascending, and changed exactly when some element was new |
| Population.Populacao.EvaluateKeepsOrder | src/ic/populacional/Populacao.java:212 | evaluating a collection keeps the tree ascending and stores the fitness only in the members not yet evaluated |
| Population.Populacao.SetIndividuos | src/ic/populacional/Populacao.java:187-190 | the members become exactly the collection, ascending and all evaluated; it reports a change exactly for a non-empty collection |
| Population.Populacao.Clear | src/ic/populacional/Populacao.java:648-650 | clear leaves no members |
| Population.Populacao.Get | src/ic/populacional/Populacao.java:310-321 | get throws IndexOutOfBounds exactly for an index at or past the end; a negative index returns null, otherwise the member at that position in ascending order |
| Population.Populacao.GetDocumented | src/ic/populacional/Populacao.java:303-306 | get as documented: it succeeds exactly for an index in range and returns the member at that position |
| Population.Populacao.Remove | src/ic/populacional/Populacao.java:551-553 | remove keeps the set ascending and removes s exactly when it is a member; afterwards s is not a member |
| Population.Populacao.AscendingRemove | src/ic/populacional/Populacao.java:552 | removing one member keeps the order |
| Population.Populacao.RemoveAll | src/ic/populacional/Populacao.java:595-597 | removeAll keeps exactly the members outside the collection, in order, and reports a change exactly when some member was in it |
| Population.Populacao.RetainAll | src/ic/populacional/Populacao.java:634-636 | retainAll keeps exactly the members inside the collection, in order, and reports a change exactly when some member was outside it |
| Population.Populacao.FilterSize | src/ic/populacional/Populacao.java:595-597 | the filter keeps the length exactly when it drops nothing, the basis of the changed results |
| Population.Populacao.GetMelhor | src/ic/ce/populacional/PopulacaoOrdenada.java:78-80 | getMelhor throws NoSuchElement exactly on an empty population and otherwise returns a member |
| Population.Populacao.GetMelhorIsBest | src/ic/ce/populacional/PopulacaoOrdenada.java:78-80 | the last member of the sorted set compares greater than every other member |
| Population.Populacao.GetMelhorGrau | src/ic/populacional/Populacao.java:362-364 | the fitness stored in the best member; an empty population throws |
| Population.Populacao.GetNMelhores | src/ic/ce/populacional/PopulacaoOrdenada.java:83-85 | a negative limit throws IllegalArgument; otherwise the min(n, size) greatest members, best first |
| Population.Populacao.GetNMelhoresDescending | src/ic/ce/populacional/PopulacaoOrdenada.java:83-85 | the top n are strictly descending, and the first of them is getMelhor |
| Population.Populacao.GetNdistintos | src/ic/populacional/Populacao.java:430-432 | the number of distinct members |
| Population.Populacao.NdistintosIsSize | src/ic/populacional/Populacao.java:430-432 | in a sorted set the distinct count is the size |
| Population.Populacao.ContainsAllAsWritten | src/ic/populacional/Populacao.java:514-516 | containsAll as written asks whether the collection itself is a member: false on an empty tree, a ClassCast failure on a non-empty one |
| Population.Populacao.ContainsAllIsInclusion | src/ic/populacional/Populacao.java:484-497 | the documented containsAll is inclusion of the collection's instances |
| Population.Populacao.ContainsAllDiscrepancy | src/ic/populacional/Populacao.java:514-516 | the empty collection is contained yet containsAll does not answer true, and a non-empty population's own members make it throw |
| Population.NewPopulacao | src/ic/populacional/Populacao.java:126-166 | the constructor succeeds exactly for a non-null environment and a non-negative maximum and otherwise throws IllegalArgument |
| Random.NextInt | src/ic/populacional/utilidades/IndiceAleatorio.java:77 | nextInt(lo, hi) throws IllegalArgument exactly when lo >= hi, and otherwise draws from [lo, hi) |
| Random.NextDouble | src/ic/ce/populacional/utilidades/Aleatorios.java:49-51 | a uniform double in [0, 1) |
| Random.NextDoubleIn | src/ic/ce/populacional/utilidades/Aleatorios.java:69-71 | nextDouble(a, b) throws IllegalArgument exactly when a >= b, and otherwise draws from [a, b) |
| Random.SorteioUniforme | src/ic/ce/populacional/utilidades/Aleatorios.java:91-93 | the draw u <= p always succeeds for p >= 1 and never for p < 0 |
| Random.NextDown | src/ic/ce/seres/reais/LocusReal.java:122-124 | the next double below the upper bound is below it, and not below a smaller lower bound |
| Sampling.GetUniforme | src/ic/populacional/utilidades/IndiceAleatorio.java:76-78 | an index of the list; an empty list throws IllegalArgument |
| Sampling.GetUniformeSer | src/ic/populacional/utilidades/IndiceAleatorio.java:56-58 | an index of the individual's genes; no genes throws IllegalArgument |
| Sampling.GetUniformeRange | src/ic/populacional/utilidades/IndiceAleatorio.java:145-158 | succeeds exactly when 0 <= lo <= hi < size, with an index in [lo, hi]; otherwise throws IllegalArgument |
| Sampling.GetUniformeSerRange | src/ic/populacional/utilidades/IndiceAleatorio.java:110-112 | the ranged draw over the individual's genes, with the same checks |
| Sampling.Draw | src/ic/populacional/utilidades/IndiceAleatorio.java:208-215 | the rejection loop returns n pairwise-distinct indices from [lo, hi] whenever there are that many |
| Sampling.GetUniformeN | src/ic/populacional/utilidades/IndiceAleatorio.java:201-216 | succeeds exactly for 0 <= n <= size (a negative n is refused by the list's capacity) and returns n distinct indices of the list |
| Sampling.GetUniformeSerN | src/ic/populacional/utilidades/IndiceAleatorio.java:175-177 | the same over the individual's genes |
| Sampling.GetUniformeNRange | src/ic/populacional/utilidades/IndiceAleatorio.java:295-321 | succeeds exactly when n fits the list and the range, and 0 <= lo <= hi < size; returns n distinct indices from [lo, hi] |
| Sampling.GetUniformeSerNRange | src/ic/populacional/utilidades/IndiceAleatorio.java:254-256 | the same over the individual's genes |
| Sampling.GetUniformePopulacao | src/ic/populacional/utilidades/IndiceAleatorio.java:338-343 | a position of the population; an empty population throws IllegalArgument |
| Sampling.PopulationSampleUnreachable | src/ic/populacional/utilidades/IndiceAleatorio.java:362-367 | with 0 < size < n, every list of distinct positions the loop can hold is shorter than n, so the loop never ends |
| Sampling.GetUniformePopulacaoN | src/ic/populacional/utilidades/IndiceAleatorio.java:358-370 | as written: a negative n throws; n > 0 on an empty population throws at the first draw; 0 < size < n never returns; otherwise n distinct positions |
| Sampling.GetUniformePopulacaoNChecked | src/ic/populacional/utilidades/IndiceAleatorio.java:201-206 | with the list overload's bound check: succeeds exactly for 0 <= n <= size, with n distinct positions, and always returns |
| Binaries.SaturatedInt | src/ic/populacional/utilidades/Binarios.java:72 | the cast of a non-negative double to int is an int, and equals the value exactly when the value fits |
| Binaries.HornerIsPositional | src/ic/populacional/utilidades/Binarios.java:67-71 | the loop's sum of 2^(n-1-i) over the set bits is the most-significant-bit-first binary value |
| Binaries.MsbValueBound | src/ic/populacional/utilidades/Binarios.java:64-73 | an n-bit list reads below 2^n |
| Binaries.Bits2Int | src/ic/populacional/utilidades/Binarios.java:64-73 | bits2Int returns the binary value of the list, most significant bit first, saturated at Integer.MAX_VALUE as the cast does |
| Binaries.Bits2IntEmpty | src/ic/ce/seres/binarios/SerBinario.java:66-75 | the empty list reads 0 |
| Binaries.AllOnes | src/ic/ce/seres/binarios/SerBinario.java:66-75 | n set bits read 2^n - 1 |
| Binaries.AllOnesBits2Int | src/ic/ce/seres/binarios/SerBinario.java:74 | up to 31 set bits the cast does not saturate and they read 2^n - 1 |
| Binaries.AppendBit | src/ic/ce/seres/binarios/SerBinario.java:69-73 | below 31 bits, appending bit x turns value v into 2v + x |
| Binaries.LocusBinarios2Int | src/ic/ce/seres/binarios/SerBinario.java:77-86 | succeeds exactly when every slot holds an ic.ce binary locus with a non-null bit, with the saturated binary value of those bits; otherwise the exception is that of a slot that cannot be read, every earlier slot being readable |
| Binaries.BooleanListToLocusList | src/ic/ce/seres/binarios/SerBinario.java:55-64 | one fresh, unowned binary locus per boolean, in order, all distinct |
| Binaries.NewSerBinario | src/ic/ce/seres/binarios/SerBinario.java:50-53 | the id counter advances by one; an empty list throws IllegalArgument; otherwise slot k holds a new binary locus with bit k, owned by the new individual |
| Binaries.ArrayAleatorioUniformeAsWritten | src/ic/populacional/utilidades/Binarios.java:48-55 | as written the loop runs for i = 0..nbits: it returns nbits + 1 booleans (none for a negative count) and never returns for nbits = Integer.MAX_VALUE |
| Binaries.ArrayAleatorioUniforme | src/ic/populacional/utilidades/Binarios.java:38-47 | as documented: exactly nbits random booleans, none for a negative count |
| Binaries.BitFlipping | src/ic/populacional/seres/binarios/mutadores/MutadorBinario.java:56-63 | every slot ends with its initial value, flipped or not; on success each slot was a binary locus, it is flipped exactly where its draw succeeded (distinct slots), and the draws follow the probability; the failures are ClassCast and NullPointer |
| Binaries.FlipAll | src/ic/populacional/seres/binarios/mutadores/MutadorBinario.java:57-62 | the loop over the gene list has bitFlipping's contract |
| Binaries.Muta | src/ic/populacional/seres/binarios/mutadores/MutadorBinario.java:46-48 | muta is bit flipping with probability 1/size: every slot is kept or flipped; on success there is one draw per slot, following probability 1/size (so a one-gene individual is always flipped), and with distinct loci exactly the drawn slots are flipped; the failures are ClassCast and NullPointer |
| Binaries.FlipAllTwice | src/ic/populacional/seres/binarios/LocusBinario.java:34-36 | flipping every bit twice restores the genome |
| Integers.InclusiveUpper | src/ic/populacional/seres/inteiros/SerInteiro.java:61 | the stored upper bound is the constructor's bound minus one in int arithmetic: one less, except that Integer.MIN_VALUE wraps to Integer.MAX_VALUE |
| Integers.NewSerInteiro | src/ic/populacional/seres/inteiros/SerInteiro.java:57-62 | the id counter always advances; it succeeds exactly for n > 0 and lower <= upper (n is checked first), with a new unborn individual of n slots; otherwise it throws IllegalArgument |
| Integers.StoredBounds | src/ic/populacional/seres/inteiros/SerInteiro.java:60-61 | the stored inclusive bounds hold exactly upper - lower values; equal bounds give an empty range, except at Integer.MIN_VALUE where the range wraps to all of int |
| Integers.NewSerInteiroMax | src/ic/populacional/seres/inteiros/SerInteiroMax.java:49-51 | SerInteiroMax(n) has the bounds [Integer.MIN_VALUE, Integer.MAX_VALUE - 1] and refuses n <= 0 |
| Integers.IntegerListToLocusList | src/ic/populacional/seres/inteiros/SerInteiro.java:84-93 | one fresh, unowned integer locus per value, in order, all distinct |
| Integers.RandomResetting | src/ic/ce/seres/inteiros/mutadores/MutadorInteiro.java:73-79 | every slot keeps its value or is reset to an integer value in the stored bounds; on success exactly the drawn slots (distinct slots) are reset and the draws follow the probability; an IllegalArgument failure happens only when upper + 1 <= lower in int arithmetic |
| Integers.ResetAll | src/ic/ce/seres/inteiros/mutadores/MutadorInteiro.java:74-78 | the stream over the gene list has randomResetting's contract |
| Integers.Muta | src/ic/ce/seres/inteiros/mutadores/MutadorInteiro.java:47-49 | muta is random resetting with probability 1/size: every slot is kept or reset into the bounds; on success there is one draw per slot, following probability 1/size (so a one-gene individual is always reset), and with distinct loci exactly the drawn slots are redrawn; the failures are NullPointer, ClassCast and IllegalArgument, the last only for an empty range |
| Integers.ResetBelowConstructorBound | src/ic/ce/seres/inteiros/mutadores/MutadorInteiro.java:77 | a reset value stays below the constructor's exclusive bound, and the draw's bound getLimiteSuperior() + 1 is that bound again |
| Permutations.Swapped | src/ic/ce/populacional/seres/permutacoes/muradores/MutadorPermutacao.java:84-90 | exchanging positions i and j: they trade elements, every other position keeps its own, and the multiset is unchanged |
| Permutations.SwapSelf | src/ic/ce/populacional/seres/permutacoes/muradores/MutadorPermutacao.java:84-90 | swapping a position with itself changes nothing |
| Permutations.SwapTwice | src/ic/ce/populacional/seres/permutacoes/muradores/MutadorPermutacao.java:84-90 | swapping twice undoes the swap |
| Permutations.SwapSymmetric | src/ic/ce/populacional/seres/permutacoes/muradores/MutadorPermutacao.java:84-90 | the order of the two positions does not matter |
| Permutations.GenomeOfSwapped | src/ic/ce/populacional/seres/permutacoes/muradores/MutadorPermutacao.java:88-89 | exchanging two gene slots exchanges their values in the genome and keeps its multiset |
| Permutations.SwapKeepsPermutation | src/ic/ce/populacional/seres/permutacoes/muradores/MutadorPermutacao.java:84-90 | a swap keeps a permutation genome a permutation of the same values |
| Permutations.NewSerPermutacao | src/ic/populacional/seres/permutacoes/SerPermutacao.java:58-60 | the id counter advances; it succeeds exactly when the int-wrapped count upper - lower is positive and lower <= upper, with that many empty slots; otherwise IllegalArgument |
| Permutations.PermutationCount | src/ic/populacional/seres/permutacoes/SerPermutacao.java:59 | a built permutation individual has as many slots as its bounds hold values; upper <= lower fails on the count unless the difference wraps to a positive int, and a difference above Integer.MAX_VALUE wraps negative |
| Permutations.Swap | src/ic/ce/populacional/seres/permutacoes/muradores/MutadorPermutacao.java:84-90 | succeeds exactly when both reads and both writes are accepted and then exchanges the two genes, both owned by the individual; a bad index throws IndexOutOfBounds with nothing changed; a refused second write leaves the first done |
| Permutations.SwapMutation | src/ic/ce/populacional/seres/permutacoes/muradores/MutadorPermutacao.java:65-68 | fewer than two genes throw IllegalArgument with nothing changed; otherwise two distinct drawn positions are swapped, with swap's outcome |
| Generators.Sample | src/ic/populacional/algoritmo/operadores/Gerador.java:55-69 | a value of the generator's locus kind that copia can rebuild |
| Generators.RandomValue | src/ic/populacional/algoritmo/operadores/Gerador.java:55-69 | an arbitrary value of the generator's locus kind that copia can rebuild |
| Generators.Gerador.constructor | src/ic/populacional/algoritmo/operadores/Gerador.java:50 | the generator keeps its counter, gene count, species and locus kind, and is bound to no algorithm |
| Generators.Gerador.SetAlgoritmo | src/ic/ce/base/algoritmo/operadores/Operador.java:71-73 | setAlgoritmo binds the operator to the algorithm |
| Generators.Gerador.Get | src/ic/populacional/algoritmo/operadores/Gerador.java:71-96 | get returns a fresh, unborn individual with the configured number of empty slots, taking the next id |
| Generators.Gerador.GetAleatorio | src/ic/populacional/algoritmo/operadores/Gerador.java:55-69 | getAleatorio returns a fresh individual whose every slot holds its own fresh gene of the configured kind, taking the next id |
| Generators.Gerador.GetN | src/ic/populacional/algoritmo/operadores/Gerador.java:112-118 | a negative n throws IllegalArgument with no id used; otherwise n fresh, unborn, pairwise distinct individuals with consecutive ids, in call order |
| Generators.Gerador.GetNAleatorios | src/ic/populacional/algoritmo/operadores/Gerador.java:134-140 | a negative n throws IllegalArgument; otherwise n fresh random individuals with consecutive ids, whose genes are fresh and shared by no two individuals |
| Generators.ConsecutiveIdsDistinct | src/ic/populacional/Ser.java:567-569 | individuals with consecutive ids from the post-incremented counter are pairwise distinct |
| Mutators.Mutador.Checked | src/ic/ce/populacional/algoritmo/operadores/Mutador.java:54-56 | a mutator built with a probability in [0, 1] holds it and is bound to no algorithm |
| Mutators.Mutador.SetAlgoritmo | src/ic/ce/base/algoritmo/operadores/Operador.java:71-73 | setAlgoritmo binds the mutator to the algorithm |
| Mutators.Mutador.SetProbabilidadeMutacao | src/ic/ce/populacional/algoritmo/operadores/Mutador.java:181-190 | succeeds exactly for a probability in [0, 1] and stores it; otherwise throws IllegalArgument and keeps the old one |
| Mutators.Mutador.SorteiaSeMuta | src/ic/ce/populacional/algoritmo/operadores/Mutador.java:162-164 | the draw always succeeds at probability 1 or more and never below 0 |
| Mutators.Mutador.MutaSer | src/ic/ce/populacional/algoritmo/operadores/Mutador.java:77 | the subclass's muta turns the genome into a bit-flipped or reset one as its kind says; bit flipping never throws IllegalArgument |
| Mutators.Mutador.Accept | src/ic/ce/populacional/algoritmo/operadores/Mutador.java:122-125 | accept is muta of the individual |
| Mutators.Mutador.MutaAt | src/ic/ce/populacional/algoritmo/operadores/Mutador.java:105 | mutating one member of a batch with separate genes changes no other member's genome |
| Mutators.Mutador.Muta | src/ic/ce/populacional/algoritmo/operadores/Mutador.java:104-106 | one draw per member, in order, following the probability; exactly the members whose draw succeeded are mutated and every other genome is as it was; an exception ends the batch at a member whose draw succeeded |
| Mutators.Mutador.Round | src/ic/ce/populacional/algoritmo/operadores/Mutador.java:105 | one round of the batch: the next member is mutated exactly when its draw succeeds |
| Mutators.Genomes | src/ic/ce/populacional/algoritmo/operadores/Mutador.java:104-106 | the batch's genomes, one per member, in order |
| Mutators.BatchStep | src/ic/ce/populacional/algoritmo/operadores/Mutador.java:105 | after one more round the members mutated are exactly those whose draw succeeded |
| Mutators.NewMutador | src/ic/ce/populacional/algoritmo/operadores/Mutador.java:54-56 | the constructor succeeds exactly for a probability in [0, 1] and otherwise throws IllegalArgument |
| Operators.Recombinador.Checked | src/ic/ce/populacional/algoritmo/operadores/Recombinador.java:81-84 | a recombiner built with a valid probability and a positive partner count holds both and is bound to no algorithm |
| Operators.Recombinador.SetAlgoritmo | src/ic/ce/base/algoritmo/operadores/Operador.java:71-73 | setAlgoritmo binds the recombiner to the algorithm |
| Operators.Recombinador.SetProbabilidadeDeRecombinacao | src/ic/ce/populacional/algoritmo/operadores/Recombinador.java:262-270 | succeeds exactly for a probability in [0, 1] and stores it; otherwise throws IllegalArgument and keeps the old one |
| Operators.Recombinador.SetNParceiros | src/ic/ce/populacional/algoritmo/operadores/Recombinador.java:306-312 | succeeds exactly for a positive count and stores it; otherwise throws IllegalArgument and keeps the old one |
| Operators.Recombinador.SorteiaSeRecombina | src/ic/ce/populacional/algoritmo/operadores/Recombinador.java:240-242 | the draw always succeeds at probability 1 or more and never below 0 |
| Operators.Recombinador.RecombinaTodos | src/ic/ce/populacional/algoritmo/operadores/Recombinador.java:150-166 | throws IllegalState exactly when the pool size is not a multiple of the partner count (never with one partner); otherwise one draw per group of consecutive partners, and the result is the concatenation, in pool order, of the recombinations of the drawn groups |
| Operators.NewRecombinador | src/ic/ce/populacional/algoritmo/operadores/Recombinador.java:81-84 | the constructor succeeds exactly for a probability in [0, 1] and a positive partner count, otherwise throws IllegalArgument |
| Operators.Group | src/ic/ce/populacional/algoritmo/operadores/Recombinador.java:162 | the g-th group is the k consecutive individuals from position g·k |
| Operators.GroupFits | src/ic/ce/populacional/algoritmo/operadores/Recombinador.java:160-161 | a group starting before the end of a pool of whole groups lies inside the pool, so subList(i, i + nPais) never fails |
| Operators.OffspringSize | src/ic/ce/populacional/algoritmo/operadores/Recombinador.java:160-164 | when every group is drawn and each recombination yields m individuals, the result has m per group |
| Operators.OffspringFromDrawnGroups | src/ic/ce/populacional/algoritmo/operadores/Recombinador.java:160-164 | every individual the pass returns comes from the recombination of a drawn group |
| Crossovers.OnePoint | src/ic/ce/populacional/algoritmo/operadores/Recombinador.java:455-465 | child 1 has par1's genes before the cut and par2's from it, child 2 the reverse; each is as long as the parent that gives its tail |
| Crossovers.OnePointRecross | src/ic/ce/populacional/algoritmo/operadores/Recombinador.java:436-468 | crossing the children again at the same cut gives back the parents |
| Crossovers.OnePointConserves | src/ic/ce/populacional/algoritmo/operadores/Recombinador.java:436-468 | the children hold exactly the parents' genes between them (multiset union) |
| Crossovers.CopyFailure | src/ic/ce/populacional/algoritmo/operadores/Recombinador.java:448-453 | copying a gene list fails exactly when some slot is null or holds a gene copia cannot rebuild, with NullPointer or IllegalArgument |
| Crossovers.OnePointCrossoverListas | src/ic/ce/populacional/algoritmo/operadores/Recombinador.java:436-468 | succeeds exactly when both parents copy and 0 <= c <= both lengths, with par1's copy failure reported first; the children are the one-point children of the parents' values |
| Crossovers.OnePointCrossoverListasAleatorio | src/ic/ce/populacional/algoritmo/operadores/Recombinador.java:413-416 | an empty par1 throws IllegalArgument; otherwise a cut in [0, size) and the crossover at that cut |
| Crossovers.Padded | src/ic/ce/populacional/algoritmo/operadores/Recombinador.java:365-366 | a child's genome is what was written from position 0 followed by the generator's empty slots |
| Crossovers.CopySplit | src/ic/ce/populacional/algoritmo/operadores/Recombinador.java:380-384 | a gene list copies exactly when both pieces of a cut copy |
| Crossovers.HoldsGenome | src/ic/ce/populacional/algoritmo/operadores/Recombinador.java:380-384 | a child whose slots hold the written values has the padded genome of them |
| Crossovers.OnePointCrossover | src/ic/ce/populacional/algoritmo/operadores/Recombinador.java:362-387 | takes two ids; a negative cut throws IllegalArgument and a cut past a parent IndexOutOfBounds; it succeeds exactly when the cut fits, both parents fit the generator's length and copy; then two distinct fresh unevaluated children whose genomes are the padded one-point children of the parents |
| Crossovers.OnePointCrossoverAleatorio | src/ic/ce/populacional/algoritmo/operadores/Recombinador.java:339-342 | an individual without genes throws IllegalArgument before any child is made; otherwise a cut in [0, size) and the crossover at that cut |
| Crossovers.Contains | src/ic/ce/populacional/algoritmo/operadores/Recombinador.java:552 | List.contains is false exactly when every equals is false, true only after an equals that holds, and throws NullPointer exactly when some equals throws |
| Crossovers.RemoveAll | src/ic/ce/populacional/algoritmo/operadores/Recombinador.java:552 | removeAll throws exactly when a contains test throws; otherwise it keeps exactly the genes the other list does not contain |
| Crossovers.RemoveEquals | src/ic/ce/populacional/algoritmo/operadores/Recombinador.java:551-555 | the values kept are exactly those of the list without an equal value in the head, no more of them than the list has |
| Crossovers.ContainsHasCopy | src/ic/ce/populacional/algoritmo/operadores/Recombinador.java:552 | between distinct loci, contains answers whether some gene has an equal value |
| Crossovers.RemoveAllGenome | src/ic/ce/populacional/algoritmo/operadores/Recombinador.java:551-555 | a successful removeAll over loci disjoint from the head keeps the values RemoveEquals keeps |
| Crossovers.WriteNoRepeat | src/ic/ce/populacional/algoritmo/operadores/Recombinador.java:557-561 | the four setCaracteristicas writes succeed only when no head gene reappears in the filtered list written into the other child; then child 1 holds head 1 then filtered list 2, and child 2 holds head 2 then filtered list 1, followed by empty slots |
| Crossovers.Filter | src/ic/ce/populacional/algoritmo/operadores/Recombinador.java:551-555 | each filtered list holds the values RemoveEquals keeps of the parent's tail then head, without the other head's values; when a head's genes were all dropped, that head is covered by the other one |
| Crossovers.OnePointCrossoverSemRepeticao | src/ic/ce/populacional/algoritmo/operadores/Recombinador.java:533-564 | takes two ids; on success the cut fits, both parents copy, each head is covered by the other (as written the crossover succeeds only then), and the children are distinct and fresh, child 1 holding par1's head then par2's genes from the cut on, wrapping round, without those equal to a gene of par1's head (child 2 symmetric), padded with empty slots |
| Crossovers.OnePointCrossoverSemRepeticaoAleatorio | src/ic/ce/populacional/algoritmo/operadores/Recombinador.java:498-502 | an individual without genes throws IllegalArgument before any child is made; otherwise a cut in [0, size) and the no-repeat crossover at that cut |
| Crossovers.Drop | src/ic/ce/populacional/algoritmo/operadores/Recombinador.java:552 | keeps, in order, exactly the elements not in the head, and keeps a distinct list distinct |
| Crossovers.NoRepeat | src/ic/ce/populacional/algoritmo/operadores/Recombinador.java:504-532 | the documented no-repeat children: each keeps its own parent's head and then has exactly the values of the head or of the other parent |
| Crossovers.NoRepeatAsWritten | src/ic/ce/populacional/algoritmo/operadores/Recombinador.java:545-561 | each child the code lays out keeps its own parent's head and is at most as long as the head plus the other parent |
| Crossovers.RemoveEqualsIsDrop | src/ic/ce/populacional/seres/permutacoes/LocusPermutacao.java:62-66 | on integer and permutation genes, whose equals is equality of values, removing the genes with an equal one is removing the values in the head |
| Crossovers.NoRepeatAsWrittenIsNoRepeat | src/ic/ce/populacional/algoritmo/operadores/Recombinador.java:533-564 | on integer and permutation genomes the children as written are the documented no-repeat children |
| Crossovers.NoRepeatAsWrittenPermutes | src/ic/ce/populacional/algoritmo/operadores/Recombinador.java:533-564 | parents that are permutations of the same integer or permutation values give children, when the crossover succeeds, that are permutations of those values |
| Crossovers.NoRepeatPermutes | src/ic/ce/populacional/algoritmo/operadores/Recombinador.java:504-532 | for two permutations of the same values, both documented no-repeat children are permutations of them |
| Crossovers.HeadFill | src/ic/ce/populacional/algoritmo/operadores/Recombinador.java:551-552 | a parent's head followed by the other parent's rotated genes it lacks is a permutation of the parent |
| Crossovers.NoRepeatCounterexample | src/ic/ce/populacional/algoritmo/operadores/Recombinador.java:557-561 | for the permutations [0, 1] and [1, 0] cut at 1, the heads do not cover each other, so the code as written throws IllegalState, while the documented operator returns both parents |
| Crossovers.Chosen | src/ic/ce/populacional/algoritmo/operadores/Recombinador.java:621-625 | child f's genes after the draws: row i picks par1's or par2's gene i for each child |
| Crossovers.ChosenAllTrue | src/ic/ce/populacional/algoritmo/operadores/Recombinador.java:623 | at probability 1 every child is par1's genome |
| Crossovers.ChosenAllFalse | src/ic/ce/populacional/algoritmo/operadores/Recombinador.java:623 | at a negative probability every child is par2's genome, cut to par1's length |
| Crossovers.WriteGene | src/ic/ce/populacional/algoritmo/operadores/Recombinador.java:623 | one draw; the picked parent's gene i is copied into slot i of the child, and the write succeeds exactly when that gene fits |
| Crossovers.WriteColumn | src/ic/ce/populacional/algoritmo/operadores/Recombinador.java:622-624 | gene i of every child in turn, one draw each, until a write throws |
| Crossovers.WriteRow | src/ic/ce/populacional/algoritmo/operadores/Recombinador.java:622-624 | one pass of the outer loop adds one row of draws and one gene to each child |
| Crossovers.FillRows | src/ic/ce/populacional/algoritmo/operadores/Recombinador.java:621-625 | row by row until a write throws: on success each child holds its chosen genes; on failure the draws end in one that did not fit |
| Crossovers.DiscriteRecombination | src/ic/ce/populacional/algoritmo/operadores/Recombinador.java:618-627 | a negative count throws IllegalArgument with no id used; otherwise nFilhos ids are used; on success there are nFilhos distinct children with consecutive ids, one row of draws per position of par1 following the probability, and each child's genome is the padded choice of genes; a failure is a draw whose gene could not be written |
| Crossovers.UniformCrossover | src/ic/ce/populacional/algoritmo/operadores/Recombinador.java:590-592 | discrete recombination into two children with probability 0.5 |
| Pmx.NextIsIndexOf | src/ic/populacional/seres/permutacoes/recombinadores/PMX.java:255-256 | one step of a chain walk, `cromossomo2.indexOf(cromossomol.get(index))`, lands where the second parent holds the value the first parent has at that position |
| Pmx.ChainsMeet | src/ic/populacional/seres/permutacoes/recombinadores/PMX.java:248-262 | two chain walks from starts in the segment that stay inside it and reach the same position are the same walk at the same step, so a later walk never reaches a slot an earlier walk wrote |
| Pmx.ChainBound | src/ic/populacional/seres/permutacoes/recombinadores/PMX.java:254-257 | a chain walk from a start leaves the segment within hi - lo steps, so the inner `while` ends |
| Pmx.PmxChildIsPermutation | src/ic/populacional/seres/permutacoes/recombinadores/PMX.java:233-271 | the child `pmxParcial` builds holds every value of both parents exactly once |
| Pmx.PmxChildUnique | src/ic/populacional/seres/permutacoes/recombinadores/PMX.java:233-271 | the child is fully determined by the two parents and the cut points |
| Pmx.FirstClear | src/ic/populacional/seres/permutacoes/recombinadores/PMX.java:264-265 | `nextClearBit(0)` is the lowest clear bit, or the bit-set length when every bit is set |
| Pmx.PmxSlots | src/ic/populacional/seres/permutacoes/recombinadores/PMX.java:242-268 | the bit set marks the segment, each start's value is written at the end of its chain, and every remaining clear slot takes the second parent's value there; the result is the PMX placement |
| Pmx.WalkChains | src/ic/populacional/seres/permutacoes/recombinadores/PMX.java:248-262 | after the `for` loop every start of the segment has its value at its chain's exit, and exactly the segment and those exits are set in the bit set |
| Pmx.WalkChain | src/ic/populacional/seres/permutacoes/recombinadores/PMX.java:253-260 | the inner walk from a start stops at the first clear bit, which is where its chain first leaves the segment and is no earlier walk's exit |
| Pmx.FillClear | src/ic/populacional/seres/permutacoes/recombinadores/PMX.java:264-268 | the final loop fills every clear slot from the second parent, lowest first, and ends with every bit set |
| Pmx.SubListCheck | src/ic/populacional/seres/permutacoes/recombinadores/PMX.java:239-240 | `subList(c1, c2 + 1)` passes exactly when 0 <= c1 <= c2 + 1 <= size, throwing IndexOutOfBounds for an end outside the list and IllegalArgument for crossed ends |
| Pmx.PMX.constructor | src/ic/populacional/seres/permutacoes/recombinadores/PMX.java:77-85 | a new PMX has no limits, none fixed and none active |
| Pmx.PMX.SetLimites | src/ic/populacional/seres/permutacoes/recombinadores/PMX.java:124-138 | a negative lower limit or an upper limit below the lower is refused with IllegalArgument and changes nothing; otherwise both limits are stored, `fixaPosicoes` is kept and the limits are active |
| Pmx.PMX.DesativaLimites | src/ic/populacional/seres/permutacoes/recombinadores/PMX.java:145-147 | the limits become inactive and stay stored |
| Pmx.PMX.AtivaLimites | src/ic/populacional/seres/permutacoes/recombinadores/PMX.java:159-164 | refused with IllegalState exactly when no limits were ever set; otherwise the limits become active |
| Pmx.PMX.PosicoesDeCrossover | src/ic/populacional/seres/permutacoes/recombinadores/PMX.java:174-195 | active fixed (or equal) limits are returned as the cut points; active free limits give two distinct sorted positions between them, failing when the upper limit is past the individual; without active limits the cuts are two distinct sorted positions of the individual, failing below two genes |
| Pmx.PMX.Recombina | src/ic/populacional/seres/permutacoes/recombinadores/PMX.java:91-104 | fewer than two partners throws IndexOutOfBounds; on success one pair of cut points serves both children, child 1 is the PMX child of (par1, par2) and child 2 of (par2, par1), and both are permutations of the parents' values |
| Pmx.PMX.RecombinaPar | src/ic/populacional/seres/permutacoes/recombinadores/PMX.java:98-101 | one draw of cut points from the first parent, then both children, each a PMX child of the parents over the segment [c1, c2 + 1) |
| Pmx.PMX.PmxParcial | src/ic/populacional/seres/permutacoes/recombinadores/PMX.java:233-271 | succeeds exactly when both parents' genes copy and 0 <= c1 <= c2 + 1 <= size; on failure the child is untouched and the error is the one `subList` throws; on success the child is the PMX child of the parents and owns all its fresh genes |
| Pmx.CopyParents | src/ic/populacional/seres/permutacoes/recombinadores/PMX.java:236-237 | both parents' genes are copied, failing exactly when some gene cannot be, and the copies hold the parents' values |
| Pmx.CutAndStore | src/ic/populacional/seres/permutacoes/recombinadores/PMX.java:239-268 | range checks of `subList` first, then every slot of the child is written with a copy holding the PMX child's value |
| Pmx.StoreChild | src/ic/populacional/seres/permutacoes/recombinadores/PMX.java:244-268 | the writes into the child: its genes are the copies the PMX placement names, each now owned by the child |
| Pmx.NewPMX | src/ic/populacional/seres/permutacoes/recombinadores/PMX.java:83-85 | a probability outside [0, 1] is refused with IllegalArgument; otherwise a PMX over two partners with no limits |
| Reals.HeadsCopy | src/ic/ce/populacional/seres/reais/recombinadores/RecombinadorReal.java:141-144 | after the first loop has run n times without throwing, each child holds its own parent's first n genes |
| Reals.TailsBlend | src/ic/ce/populacional/seres/reais/recombinadores/RecombinadorReal.java:146-160 | every pass of the second loop that completed wrote, at its position, child 1's blend alfa*v2 + (1-alfa)*v1 in par1's bounds and child 2's blend alfa*v1 + (1-alfa)*v2 in par2's bounds |
| Reals.Simple | src/ic/ce/populacional/seres/reais/recombinadores/RecombinadorReal.java:132-162 | a cut past the end of par1 fails; on success both children are as long as par1, copy their own parent before the cut and hold the blended pair from it on |
| Reals.SimpleNegativeCut | src/ic/ce/populacional/seres/reais/recombinadores/RecombinadorReal.java:141-147 | a negative cut skips the copy loop and throws IndexOutOfBounds at the first read of the blend loop |
| Reals.SimpleShape | src/ic/ce/populacional/seres/reais/recombinadores/RecombinadorReal.java:141-160 | what the two loops leave, put together, is the copied head followed by the blended tail, as long as par1 |
| Reals.SimpleRecombination | src/ic/ce/populacional/seres/reais/recombinadores/RecombinadorReal.java:132-162 | two fresh, unevaluated children come from the generator; the run succeeds exactly when the step-by-step run succeeds, throws the exception that run names, and the children hold what it computes |
| Reals.SimpleRecombinationAleatorio | src/ic/ce/populacional/seres/reais/recombinadores/RecombinadorReal.java:99-102 | k is drawn from [0, size of par1) and no child is made for an empty par1, which fails; otherwise the result is simple recombination at k |
| Reals.WholeArithmeticRecombination | src/ic/ce/populacional/seres/reais/recombinadores/RecombinadorReal.java:181-183 | simple recombination from k = 0: every position is blended |
| Reals.SimpleSwap | src/ic/ce/populacional/seres/reais/recombinadores/RecombinadorReal.java:146-160 | for equally long parents, exchanging the parents exchanges the two children |
| Reals.SimpleZeroAlfa | src/ic/ce/populacional/seres/reais/recombinadores/RecombinadorReal.java:153-158 | with alfa = 0 child 1 is par1 and child 2 is par2's first genes |
| Reals.SimpleConserves | src/ic/ce/populacional/seres/reais/recombinadores/RecombinadorReal.java:153-158 | at every blended position the two children's values add up to the parents' values |
| Reals.BlendWithin | src/ic/ce/populacional/seres/reais/recombinadores/RecombinadorReal.java:153-154 | for 0 <= alfa <= 1 a blend of two values inside common bounds stays inside them, so the LocusReal constructor accepts it |
| Reals.SimpleInRange | src/ic/ce/populacional/seres/reais/recombinadores/RecombinadorReal.java:132-162 | with 0 <= alfa <= 1, a cut in [0, size], par2 no shorter than par1, children long enough and both parents real loci with the same bounds at each position, simple recombination never throws |
| Reals.NewSerReal | src/ic/ce/seres/reais/SerReal.java:51-53 | a fixed-size individual with n empty slots and the next id; n <= 0 is refused with IllegalArgument |
| Reals.DoubleListToLocusList | src/ic/ce/seres/reais/SerReal.java:56-60 | one fresh, distinct, unowned locus per value, in order, with the bounds [-Double.MAX_VALUE, Double.MAX_VALUE); fails with IllegalArgument exactly when some non-null value lies outside those bounds |
| Reals.HeadStep | src/ic/ce/populacional/seres/reais/recombinadores/RecombinadorReal.java:142-143 | one pass of the copy loop succeeds exactly when both parents have a gene at i that `copia` accepts and the children have room, and copies both |
| Reals.Heads | src/ic/ce/populacional/seres/reais/recombinadores/RecombinadorReal.java:141-144 | after n passes of the copy loop both children hold n genes, which needs n within both parents and the children |
| Reals.Tails | src/ic/ce/populacional/seres/reais/recombinadores/RecombinadorReal.java:146-160 | after n passes of the blend loop from k both children hold n more genes, which needs k + n within both parents and the children |
| Selection.Head | src/ic/populacional/algoritmo/operadores/Seletor.java:80 | the head a `PriorityQueue` on `comparadorInverso()` polls: no queued individual precedes it under the inverse comparator |
| Selection.Without | src/ic/populacional/algoritmo/operadores/Seletor.java:80 | polling removes exactly the head: one element fewer, the rest unchanged as a multiset |
| Selection.PollStep | src/ic/populacional/algoritmo/operadores/Seletor.java:79-81 | one poll keeps the selection best-first and keeps every selected individual better than everything still queued |
| Selection.HeadBeatsRest | src/ic/populacional/algoritmo/operadores/Seletor.java:80 | the polled head is strictly better than everything left in the queue |
| Selection.Seletor.constructor | src/ic/populacional/algoritmo/operadores/Seletor.java:43-46 | the selector holds the environment and population it was given |
| Selection.Seletor.SetAlgoritmo | src/ic/ce/base/algoritmo/operadores/Operador.java:71-73 | setAlgoritmo binds the selector to the algorithm |
| Selection.Seletor.MelhoresEntreAleatorios | src/ic/populacional/algoritmo/operadores/Seletor.java:66-84 | more best than sampled is refused with IllegalArgument; succeeds exactly when 0 <= nMelhores <= nAleatorios <= population size; the sample is nAleatorios distinct members, and the result is nMelhores of them, best first, each better than every sampled individual left out |
| Selection.Seletor.Polls | src/ic/populacional/algoritmo/operadores/Seletor.java:79-81 | n polls return n queued individuals best-first, each better than every queued individual not polled |
| Selection.Seletor.Sample | src/ic/populacional/algoritmo/operadores/Seletor.java:74-77 | the queue holds the individual at each sampled position, in sample order, all distinct |
| Selection.Picked | src/ic/populacional/algoritmo/operadores/Seletor.java:74-77 | individuals at distinct positions of a population are distinct and have distinct ids |
| Selection.Selected | src/ic/populacional/algoritmo/operadores/Seletor.java:79-81 | after the polls, the selected and the still-queued individuals together make up the sample |
| DifferentialEvolution.ClampedWithin | src/ic/ce/populacional/algoritmos/DE/mutadores/Best.java:71-79 | whatever the candidate, the locus Best writes lies inside its bounds when they are not empty: at or above the upper bound it takes the double below it, below the lower bound it takes the lower bound |
| DifferentialEvolution.MutatedWithinBounds | src/ic/ce/populacional/algoritmos/DE/mutadores/Best.java:61-80 | once every locus was written, each holds a real value, inside its bounds whenever they are not empty |
| DifferentialEvolution.CandidateIsWeightedSum | src/ic/ce/populacional/algoritmos/DE/mutadores/Best.java:63-70 | the candidate as written is the base's value plus F times the sum of the first ceil(nDiferencas / 2) differences, and it exists exactly when the base's locus is real and, if a pair is used, every read is a non-null value |
| DifferentialEvolution.CandidateIntendedIsWeightedSum | src/ic/ce/populacional/algoritmos/DE/mutadores/Best.java:63-70 | with one pass per difference the candidate is the base's value plus F times all nDiferencas differences, with the matching condition for when it exists |
| DifferentialEvolution.SkippedDifference | src/ic/ce/populacional/algoritmos/DE/mutadores/Best.java:65-67 | with two differences the loop as written adds only the first: a concrete sample gives 0 as written and 1 as intended |
| DifferentialEvolution.Best.constructor | src/ic/populacional/algoritmos/DE/motadores/MutadorDE.java:40-44 | mutation probability 1, and the given number of differences and factor |
| DifferentialEvolution.Best.SetNDiferencas | src/ic/populacional/algoritmos/DE/motadores/MutadorDE.java:63-65 | any count is stored, zero and negative ones included |
| DifferentialEvolution.Best.SetFatorDePerturbacao | src/ic/populacional/algoritmos/DE/motadores/MutadorDE.java:83-85 | any factor is stored |
| DifferentialEvolution.Best.Muta | src/ic/ce/populacional/algoritmos/DE/mutadores/Best.java:53-82 | the population's genomes are untouched; a sample size outside [0, population size] throws before any locus changes (IllegalArgument, or NeverReturns when the unchecked sampler would loop), an empty population throws NoSuchElement; otherwise loci 0 .. n-1 hold their clamped candidates, and it fails exactly at the first locus whose step throws |
| DifferentialEvolution.Best.MutaTodos | src/ic/ce/populacional/algoritmo/operadores/Mutador.java:104-106 | every member, in order, is mutated against the same population, which keeps its genomes; an exception ends the batch at the member that raised it |
| DifferentialEvolution.BatchWithinBounds | src/ic/ce/populacional/algoritmo/operadores/Mutador.java:104-106 | after a batch that passed, every locus of every member is real and inside its non-empty bounds |
| DifferentialEvolution.Binomial.Checked | src/ic/populacional/algoritmos/DE/recombinadores/RecombinadorDE.java:44-47 | recombination probability 1, one partner, and the given crossover probability |
| DifferentialEvolution.Binomial.SetProbabilidadeDeCrossover | src/ic/populacional/algoritmos/DE/recombinadores/RecombinadorDE.java:88-94 | a probability outside [0, 1] is refused with IllegalArgument and changes nothing; otherwise it is stored |
| DifferentialEvolution.Binomial.Trial | src/ic/populacional/algoritmos/DE/recombinadores/Binomial.java:53-54 | the trial is the one child of discrete recombination of donor and target, a fresh individual evaluated by the environment; a failure is the exception discrete recombination stops on |
| DifferentialEvolution.Binomial.Recombina | src/ic/populacional/algoritmos/DE/recombinadores/Binomial.java:49-67 | an empty pool throws IndexOutOfBounds and an empty population IllegalArgument; on success the drawn target leaves the population and the one survivor is the trial exactly when it is strictly better than the target, else the target |
| DifferentialEvolution.Binomial.RecombinaTodos | src/ic/ce/populacional/algoritmo/operadores/Recombinador.java:150-166 | a pool that is not whole groups throws IllegalState and changes nothing; otherwise one survivor per successful draw, each its duel's trial or target and never worse than the target, with the targets taken out of the population |
| DifferentialEvolution.NewBinomial | src/ic/populacional/algoritmos/DE/recombinadores/RecombinadorDE.java:44-47 | the constructor refuses a crossover probability outside [0, 1] with IllegalArgument |
| DifferentialEvolution.EmptySlotThrows | src/ic/ce/populacional/algoritmos/DE/DE.java:57-59 | writing the clamp into an individual whose first slot is empty throws, so the batch cannot pass |
| DifferentialEvolution.IteracaoAsWritten | src/ic/ce/populacional/algoritmos/DE/DE.java:54-65 | with a non-empty population and individuals of at least one locus, the iteration as written throws on the empty slots of `getN`'s individuals and leaves the population as it was |
| DifferentialEvolution.NovaGeracao | src/ic/ce/populacional/algoritmos/DE/DE.java:57 | as many new individuals as the population has members, each gene fresh and shared with nothing else |
| DifferentialEvolution.Evolve | src/ic/ce/populacional/algoritmos/DE/DE.java:59-63 | mutation of the new generation against the population, then the duels; on success the population is exactly the survivors, each its duel's trial or target, all evaluated, and with probability 1 and one partner there is one survivor per new individual |
| DifferentialEvolution.Iteracao | src/ic/ce/populacional/algoritmos/DE/DE.java:54-65 | on success the population becomes the duel survivors, each the trial or the target of its duel, evaluated and with unique ids; with probability 1 and one partner every member is a target once and the population keeps its size |
| DifferentialEvolution.ReadReal | src/ic/ce/populacional/algoritmos/DE/mutadores/Best.java:63 | reading a locus value as a `Double` succeeds exactly for a real locus at a position inside the genome, and yields its value |
| DifferentialEvolution.LocusStep | src/ic/ce/populacional/algoritmos/DE/mutadores/Best.java:63-79 | a locus is written only when the candidate exists and the slot holds a real locus; with a candidate, a failure is ClassCast or NullPointer |
| DifferentialEvolution.AccumulateIsWeightedSum | src/ic/ce/populacional/algoritmos/DE/mutadores/Best.java:65-70 | from pair j on, the inner loop as written succeeds exactly when no pair is left or the running value and every remaining read are non-null, and it then adds F times the remaining differences |
| DifferentialEvolution.AccumulatePairsIsWeightedSum | src/ic/ce/populacional/algoritmos/DE/mutadores/Best.java:65-70 | the same for the loop with one pass per difference |
| DifferentialEvolution.EveryGroup | src/ic/ce/populacional/algoritmo/operadores/Recombinador.java:160-164 | with probability 1 and groups of one, every member of the pool is drawn |
| Ags.AGSimples.constructor | src/ic/ce/populacional/algoritmo/AGSimples.java:50-52 | a new simple genetic algorithm is named "AGS", has the default iteration limit, zeroed counters and no operators, environment or population |
| Ags.AGSimples.Iteracao | src/ic/ce/populacional/algoritmo/AGSimples.java:55-63 | a missing selector or recombiner throws NullPointer and a parent list that is not whole groups throws IllegalState; on success the children are the recombinations of the drawn groups, mutated as the mutation batch says, and the population becomes exactly those children, each evaluated by its environment |
| Ags.AGSimples.Recombina | src/ic/ce/populacional/algoritmo/AGSimples.java:58 | the pass succeeds exactly when the parents form whole groups, otherwise IllegalState; the children are the recombinations of the drawn groups and their genomes are unchanged |
| Ags.AGSimples.Substitui | src/ic/ce/populacional/algoritmo/AGSimples.java:60-62 | the children are mutated as the batch draws say, and then become the population, each evaluated |
| Ags.AGSimples.Instala | src/ic/ce/populacional/algoritmo/AGSimples.java:62 | the population becomes exactly the children, kept in ascending order and evaluated, with the children's genomes left as they are |
| Algorithm.AlgoritmoEvolucionario.constructor | src/ic/populacional/algoritmo/AlgoritmoEvolucionario.java:87-90 | the default constructor sets the limit to Integer.MAX_VALUE and the placeholder name, with zeroed counters and nothing else set |
| Algorithm.AlgoritmoEvolucionario.WithAmbiente | src/ic/populacional/algoritmo/AlgoritmoEvolucionario.java:121-124 | the environment constructor as written: only the field initialisers run, so the counters are 0 but the limit and the name stay null, and the given environment is stored |
| Algorithm.AlgoritmoEvolucionario.WithAmbienteIntended | src/ic/populacional/algoritmo/AlgoritmoEvolucionario.java:121-124 | the environment constructor chaining to the default one: the default limit and name, and the given environment |
| Algorithm.AlgoritmoEvolucionario.VerificacaoInicial | src/ic/populacional/algoritmo/AlgoritmoEvolucionario.java:186-190 | passes exactly when an environment is set, otherwise IllegalState |
| Algorithm.AlgoritmoEvolucionario.SetMelhorSer | src/ic/populacional/algoritmo/AlgoritmoEvolucionario.java:198-200 | the best individual becomes the given one |
| Algorithm.AlgoritmoEvolucionario.Terminou | src/ic/populacional/algoritmo/AlgoritmoEvolucionario.java:234-236 | the base algorithm never asks to stop early |
| Algorithm.AlgoritmoEvolucionario.SetAmbiente | src/ic/populacional/algoritmo/AlgoritmoEvolucionario.java:295-300 | succeeds exactly when no environment was set and then stores the given one; otherwise IllegalState and the old environment stays |
| Algorithm.AlgoritmoEvolucionario.SwitchAmbiente | src/ic/populacional/algoritmo/AlgoritmoEvolucionario.java:314-316 | the environment becomes the given one, whatever was there |
| Algorithm.AlgoritmoEvolucionario.SetMaxIteracoes | src/ic/populacional/algoritmo/AlgoritmoEvolucionario.java:326-331 | a negative limit is refused with IllegalArgument and changes nothing; otherwise it is stored |
| Algorithm.AlgoritmoEvolucionario.IncrementaContadorDeIteracoes | src/ic/populacional/algoritmo/AlgoritmoEvolucionario.java:351-353 | the counter goes up by one in Java `int` arithmetic, wrapping from Integer.MAX_VALUE to Integer.MIN_VALUE, and the new value is returned |
| Algorithm.AlgoritmoEvolucionario.IncrementaContadorSemMelhoras | src/ic/populacional/algoritmo/AlgoritmoEvolucionario.java:371-373 | the same on the stagnation counter |
| Algorithm.AlgoritmoEvolucionario.ZeraContadorSemMelhoras | src/ic/populacional/algoritmo/AlgoritmoEvolucionario.java:381-383 | the stagnation counter becomes 0, which is returned |
| Algorithm.AlgoritmoEvolucionario.SetGerador | src/ic/populacional/algoritmo/AlgoritmoEvolucionario.java:424-427 | the generator is stored and bound to this algorithm; a null generator is stored and then throws NullPointer |
| Algorithm.AlgoritmoEvolucionario.SetMutador | src/ic/populacional/algoritmo/AlgoritmoEvolucionario.java:447-450 | the mutation operator is stored and bound to this algorithm; a null one is stored and then throws NullPointer |
| Algorithm.WrapShift | src/ic/populacional/algoritmo/AlgoritmoEvolucionario.java:351-353 | adding d one increment at a time in wrapping arithmetic gives the wrapped sum |
| Errors.Wrap32 | src/ic/populacional/algoritmo/AlgoritmoEvolucionario.java:57 | a Java `int` value: in the signed 32-bit range, congruent to the mathematical value modulo 2^32, and the value itself when it is in range |
| Errors.Succ32 | src/ic/populacional/algoritmo/AlgoritmoEvolucionario.java:352 | `x + 1` on an `int`: one more below Integer.MAX_VALUE, and Integer.MIN_VALUE from it |
| CeAlgorithm.Avisos | src/ic/ce/base/algoritmo/AlgoritmoEvolucionario.java:194 | one event reaches every registered listener once, in registration order, with the old and the new value |
| CeAlgorithm.Remove | src/ic/ce/base/algoritmo/AlgoritmoEvolucionario.java:577-579 | removal takes away one registration of a registered listener and leaves the list alone for null or an unregistered one |
| CeAlgorithm.RegistraCounts | src/ic/ce/base/algoritmo/AlgoritmoEvolucionario.java:567-569 | registering adds exactly one registration of a non-null listener, even one already registered, and ignores null |
| CeAlgorithm.RemoveCounts | src/ic/ce/base/algoritmo/AlgoritmoEvolucionario.java:577-579 | removing takes exactly one registration of a registered listener away and changes nothing otherwise |
| CeAlgorithm.RegistraRemove | src/ic/ce/base/algoritmo/AlgoritmoEvolucionario.java:567-579 | registering and then removing a listener leaves the same registrations |
| CeAlgorithm.RegistraRemoveFresh | src/ic/ce/base/algoritmo/AlgoritmoEvolucionario.java:567-579 | for a listener not registered before, registering and then removing it gives back the same list |
| CeAlgorithm.CeAlgoritmo.constructor | src/ic/ce/base/algoritmo/AlgoritmoEvolucionario.java:93-97 | limit Integer.MAX_VALUE, the placeholder name, zeroed counters and no listeners |
| CeAlgorithm.CeAlgoritmo.WithAmbiente | src/ic/ce/base/algoritmo/AlgoritmoEvolucionario.java:128-131 | the environment constructor chains to the default one, so the limit and the name are set, and stores the environment |
| CeAlgorithm.CeAlgoritmo.SetNome | src/ic/ce/base/algoritmo/AlgoritmoEvolucionario.java:523-525 | the name becomes the given one |
| CeAlgorithm.CeAlgoritmo.SetMelhorSer | src/ic/ce/base/algoritmo/AlgoritmoEvolucionario.java:193-195 | the best individual becomes the given one; unless old and new are the same individual, each registered listener gets one notification carrying both, in registration order |
| CeAlgorithm.CeAlgoritmo.AddMelhorSerListener | src/ic/ce/base/algoritmo/AlgoritmoEvolucionario.java:567-569 | a non-null listener is appended to the listeners; null is ignored |
| CeAlgorithm.CeAlgoritmo.RemoveMelhorSerListener | src/ic/ce/base/algoritmo/AlgoritmoEvolucionario.java:577-579 | the first registration of the listener is removed, if there is one |
| Populational.Stalled | src/ic/populacional/algoritmo/AlgoritmoPopulacional.java:168-171 | the number of passes that stalled, at most the number of passes |
| Populational.CountedStep | src/ic/populacional/algoritmo/AlgoritmoPopulacional.java:163-174 | one more pass keeps the counters as the run describes them: each pass counts one iteration and a stalled pass a second one, with 32-bit wrap-around, and the stagnation counter drops to 0 at the first pass that did not stall |
| Populational.TrailingStalls | src/ic/populacional/algoritmo/AlgoritmoPopulacional.java:168-174 | how many passes at the end stalled, back to the last one that did not |
| Populational.SemMelhorasIntended | src/ic/populacional/algoritmo/AlgoritmoPopulacional.java:168-174 | the stagnation counter with a stall counted by `incrementaContadorSemMelhoras`: one more per stall, 0 after a pass that did not stall, always a 32-bit value |
| Populational.SemMelhorasCountsStalls | src/ic/populacional/algoritmo/AlgoritmoPopulacional.java:168-174 | the intended stagnation counter is the number of trailing stalled passes, from the start value if every pass stalled |
| Populational.CountedIntendedStep | src/ic/populacional/algoritmo/AlgoritmoPopulacional.java:163-174 | with the intended stall branch one pass counts one iteration and the intended stagnation count |
| Populational.StallCountedTwice | src/ic/populacional/algoritmo/AlgoritmoPopulacional.java:170 | one stalled pass from zeroed counters counts two iterations and no stall as written, one of each as intended |
| Populational.ProgressStep | src/ic/populacional/algoritmo/AlgoritmoPopulacional.java:161-184 | one pass keeps what the run records: the counters, and a replacement of the best-ever only by a strictly better individual after a pass that did not stall |
| Populational.Envelhece | src/ic/populacional/algoritmo/AlgoritmoPopulacional.java:183 | every member of the population becomes one year older, with envelhece's `int` wrap at Integer.MAX_VALUE, and stays a valid individual (its age a 32-bit value) |
| Populational.AlgoritmoPopulacional.constructor | src/ic/populacional/algoritmo/AlgoritmoPopulacional.java:81-83 | the default base and no operators or population |
| Populational.AlgoritmoPopulacional.WithAmbiente | src/ic/populacional/algoritmo/AlgoritmoPopulacional.java:114-117 | the base environment constructor as written (limit and name stay null), the environment and the population stored |
| Populational.AlgoritmoPopulacional.VerificacaoInicial | src/ic/populacional/algoritmo/AlgoritmoPopulacional.java:201-208 | passes exactly when both an environment and a population are set, otherwise IllegalState |
| Populational.AlgoritmoPopulacional.SetPopulacao | src/ic/populacional/algoritmo/AlgoritmoPopulacional.java:295-300 | succeeds exactly when no population was set and then stores it; otherwise IllegalState and no change |
| Populational.AlgoritmoPopulacional.SetRecombinador | src/ic/populacional/algoritmo/AlgoritmoPopulacional.java:228-231 | the recombiner is stored and bound to this algorithm; a null one is stored and throws NullPointer |
| Populational.AlgoritmoPopulacional.SetSeletor | src/ic/populacional/algoritmo/AlgoritmoPopulacional.java:251-254 | the selector is stored and bound to this algorithm; a null one is stored and throws NullPointer |
| Populational.AlgoritmoPopulacional.SwitchAmbiente | src/ic/populacional/algoritmo/AlgoritmoPopulacional.java:268-272 | the environment is replaced and evaluates the whole population: members it had evaluated keep their fitness and the others get its evaluation; a null environment or population throws NullPointer and leaves the members alone |
| Populational.AlgoritmoPopulacional.Run | src/ic/populacional/algoritmo/AlgoritmoPopulacional.java:146-188 | without an environment or population IllegalState, with an empty population NoSuchElement, with a null limit an exception; on success the counters are those of the passes made, the run stops early only at the limit, every change of best-ever is to a strictly better fitness, and with no stalled pass the best-ever is never replaced |
| Populational.AlgoritmoPopulacional.Laco | src/ic/populacional/algoritmo/AlgoritmoPopulacional.java:161-184 | the loop runs while generations remain and the counter is below the limit, and keeps what the run records |
| Populational.AlgoritmoPopulacional.Passo | src/ic/populacional/algoritmo/AlgoritmoPopulacional.java:163-183 | one pass: the population becomes the new generation, evaluated and one year older (with the `int` wrap of envelhece); a pass stalls exactly when the previous pass's best is not worse than this pass's best; the counters and the best-ever change as the loop body says |
| Populational.AlgoritmoPopulacional.Avaliacao | src/ic/populacional/algoritmo/AlgoritmoPopulacional.java:164-183 | after the step, the counter, the comparisons and the ageing, leaving every fitness as it was |
| Populational.AlgoritmoPopulacional.Compara | src/ic/populacional/algoritmo/AlgoritmoPopulacional.java:168-179 | a stall counts the iteration a second time and leaves the stagnation counter; otherwise the stagnation counter is reset and the pass's best replaces the best-ever exactly when it is strictly better |
| Populational.AlgoritmoPopulacional.ComparaIntended | src/ic/populacional/algoritmo/AlgoritmoPopulacional.java:168-179 | with the stall counted by `incrementaContadorSemMelhoras`: a stall leaves the iteration counter and adds one to the stagnation counter |
| Populational.AlgoritmoPopulacional.Iteracao | src/ic/populacional/algoritmo/AlgoritmoPopulacional.java:163 | the subclass's step installs the given generation as the ascending population, evaluated, with members already evaluated by the environment keeping their fitness |

## Left out

- **Java `double` is modelled as Dafny `real`.** There is no rounding, NaN or infinity. `Reals.SimpleConserves`, `Reals.BlendWithin` and the weighted sums of `DifferentialEvolution` (`CandidateIsWeightedSum`, `CandidateIntendedIsWeightedSum`) hold over exact reals, not over IEEE doubles. `Math.nextDown` (the top of the real draw) is any value below the bound.
- **Parallel streams run one after another, in list order.** This applies to `Mutators.Mutador.Muta` (Mutador.java:105), `Integers.ResetAll` (MutadorInteiro.java:74), `Environment.Ambiente.AvaliaTodos` (Ambiente.java:203) and `DifferentialEvolution.Best.MutaTodos`. Interleavings and data races of the threads are not modelled.
- **One set of individual and sampler classes serves both packages.** `src/ic/ce/populacional/algoritmo/operadores/Recombinador.java` and `src/ic/ce/populacional/algoritmos/DE/mutadores/Best.java` import `Ser`, `Caracteristica`, `SerReal`, `LocusReal` and `IndiceAleatorio` from `ic.ce.populacional`. Those classes are not part of this model. Their `ic.populacional` counterparts (`Beings`, `Genes`, `Sampling`) stand in for them.
- **Abstract hooks are made concrete or passed in.**
  - `Gerador.get`/`getAleatorio` are concrete. `Generators.Gerador.Get` yields an individual with empty slots. `GetAleatorio` yields one with random genes of one locus kind.
  - `getPais` is the `pais` parameter of `Ags.AGSimples.Iteracao`, and the recombination function is a parameter too.
- **The iteration hook and the other lifecycle hooks.**
  - `iteracao()` in `AlgoritmoPopulacional.executa` is the `geracoes` parameter of `Populational.AlgoritmoPopulacional.Run`: it lists the populations the successive iterations install. The run also stops when that list runs out.
  - `terminou()` keeps its default, which returns false.
  - The `inicia()`/`finaliza()` hooks keep their empty defaults and are dropped.
  - Overrides of these hooks are user code.
- **`Algorithm.AlgoritmoEvolucionario.SetMaxIteracoes`** requires a 32-bit value. The `NullPointerException` on unboxing a null `Integer` is not modelled.
- **Lists of booleans are `seq<bool>`.** The `NullPointerException` on unboxing a null element in `bits2Int` and `booleanListToLocusList` is not modelled.
- **`Pmx.PMX.Recombina` and `Pmx.PMX.PmxParcial` require two parents of the same length.**
  - Both also require parents that are permutations of the same values (`SamePermutation`). The chain walk at PMX.java:248-262 relies on this to end.
  - The two children come in as `filho1`/`filho2` instead of from `gerador.get()`, so the id counter advanced by those calls is not tracked.
- **The driver's raw-fitness comparisons.** AlgoritmoPopulacional.java:168 and :175 pass fitness values (`getGrauDeAdaptacao()`) to `Ambiente.compare`, which takes two individuals (Ambiente.java:227). As written, that does not type-check. The model compares the two fitness values in the environment's optimisation mode (`Environment.CompareFitness`).
- **`Population.Populacao.Add` stores no fitness.** It calls the abstract `avalia(ser)` (Ambiente.java:174) and discards the result. Ambiente.java:158-165 leaves storing the value to the user's `avalia`, which is not part of this model. So the added member is not marked as evaluated, against the class comment's "every member is evaluated".
- **Beings.IdCounter** is an unbounded natural. The source's `Long` counter of individuals (Ser.java:85, :568) would wrap after 2^63 individuals, which the model does not capture.
- **A call that never returns** is the outcome `Fail(NeverReturns)`. Examples are the rejection loop of `IndiceAleatorio.getUniforme(populacao, n)` when fewer than `n` distinct positions exist, and `Binarios.arrayAleatorioUniforme(Integer.MAX_VALUE)`. The model does not express non-termination as such.
- **I/O, threads and randomness.** Randomness is a nondeterministic choice. Events are recorded as listener lists, but what the listeners do is not modelled. `Runnable.run` and the thread that runs an algorithm are not modelled.
- **Timers and reports.** The timers (`timerStart`, `timerStop`, `getTempo*`), `relatorio` and the string statistics of the population and the algorithms are left out: they only read the clock or build text.
- **`src/ic/ce/populacional/algoritmos/DE/recombinadores/Exponencial.java`:** its `recombina` always throws a `RuntimeException` ("not yet implemented"), so there is nothing to model beyond that.
- **DE.java's constructors and name.** The model keeps only the name constant `DifferentialEvolution.Nome`. The iteration is modelled in full (`DifferentialEvolution.IteracaoAsWritten`, `DifferentialEvolution.Iteracao`).

## Findings

| source | as written | input that shows it | evidently intended | confidence | as-written member | corrected member |
|---|---|---|---|---|---|---|
| src/ic/populacional/Populacao.java:514-516 | `containsAll(c)` asks the tree whether the collection object itself is a member | any non-empty population: the comparator cannot cast a collection to an individual; an empty population answers false even for the empty collection | true exactly when every element of `c` is a member | not executed | Population.Populacao.ContainsAllAsWritten, Population.Populacao.ContainsAllDiscrepancy | Population.Populacao.ContainsAllIsInclusion |
| src/ic/populacional/utilidades/Binarios.java:51 | the loop test `i <= nbits` draws one boolean too many | `nbits = 3` gives 4 booleans; `nbits = Integer.MAX_VALUE` never ends | exactly `nbits` booleans | not executed | Binaries.ArrayAleatorioUniformeAsWritten | Binaries.ArrayAleatorioUniforme |
| src/ic/populacional/utilidades/IndiceAleatorio.java:358-370 | no check that `nNumeros` is at most the population's size | a population of one member and `nNumeros = 2`: the rejection loop never ends (as does `Seletor.melhoresEntreAleatorios(1, 2)`) | `IllegalArgumentException` when `nNumeros` exceeds the size, as the list overload does | not executed | Sampling.GetUniformePopulacaoN, Sampling.PopulationSampleUnreachable | Sampling.GetUniformePopulacaoNChecked |
| src/ic/ce/populacional/algoritmos/DE/mutadores/Best.java:65-70 | `i` advances twice per pass but is compared with `nDiferencas`, so only ceil(nDiferencas / 2) differences are added while 2·nDiferencas positions are drawn | `nDiferencas = 2`, base 0, F = 1, members holding 0, 0, 1, 0: the candidate is 0, not 1 | the sum of all `nDiferencas` differences | not executed | DifferentialEvolution.CandidateIsWeightedSum, DifferentialEvolution.SkippedDifference | DifferentialEvolution.CandidateIntendedIsWeightedSum |
| src/ic/populacional/algoritmo/AlgoritmoPopulacional.java:170 | a pass without improvement calls `incrementaContadorDeIteracoes` a second time | one stalled pass from zeroed counters: two iterations and no stall are counted | `incrementaContadorSemMelhoras`: one iteration and one stall | not executed | Populational.AlgoritmoPopulacional.Compara, Populational.StallCountedTwice | Populational.AlgoritmoPopulacional.ComparaIntended, Populational.SemMelhorasCountsStalls |
| src/ic/populacional/algoritmo/AlgoritmoEvolucionario.java:122 | the constructor with an environment chains to `super()`, skipping the defaults of `this()` | any environment: `maxIteracoes` and `nome` stay null | the iteration limit `Integer.MAX_VALUE` and the default name, then the environment | not executed | Algorithm.AlgoritmoEvolucionario.WithAmbiente | Algorithm.AlgoritmoEvolucionario.WithAmbienteIntended |
| src/ic/populacional/Populacao.java:310-321 | a negative index skips the loop and returns null | `get(-1)` on any population | `IndexOutOfBoundsException`, as the method's documentation says | not executed | Population.Populacao.Get | Population.Populacao.GetDocumented |
| src/ic/ce/populacional/algoritmo/operadores/Recombinador.java:545-561 | child 2 takes the copies of par2's head, and then child 1 receives par2's filtered tail-and-head list. That list still holds a head copy unless an equal gene of par1's head removed it, and writing a gene that another individual already owns throws | permutation parents `[0, 1]` and `[1, 0]` cut at 1: par2's head 1 has no equal in par1's head 0, so the call fails | both children are the parents' permutations: head of one parent, then the other parent's genes not in that head | not executed; the ownership check is that of the `ic.populacional` gene class, which stands in for the `ic.ce` one | Crossovers.NoRepeatAsWritten, Crossovers.NoRepeatCounterexample | Crossovers.NoRepeat, Crossovers.NoRepeatPermutes |
| src/ic/ce/populacional/algoritmos/DE/DE.java:57 | the new generation comes from `getN`, whose individuals have empty slots | any non-empty population of individuals with at least one locus: `muta` throws on the first empty slot | a generation of individuals with genes (`getNAleatorios`) | not executed | DifferentialEvolution.IteracaoAsWritten, DifferentialEvolution.EmptySlotThrows | DifferentialEvolution.Iteracao |
